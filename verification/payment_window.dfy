/**
 * The submission logic of `PaymentWindow.java`: the trimmed card number,
 * expiry date and CVV are checked in a fixed order, and only a request that
 * passes every check reaches `processPayment`.
 */
module PaymentWindow {
  import opened Wrappers
  import opened JavaText
  import opened Store
  import BookingSystem

  /** `^[0-9]{13,19}$`: no Luhn checksum. */
  predicate IsCardNumber(s: string) {
    13 <= |s| <= 19 && AllDigits(s)
  }

  /** `^(0[1-9]|1[0-2])/([0-9]{2})$`. */
  predicate IsExpiry(s: string) {
    && |s| == 5
    && ((s[0] == '0' && '1' <= s[1] <= '9') || (s[0] == '1' && '0' <= s[1] <= '2'))
    && s[2] == '/'
    && IsDigit(s[3]) && IsDigit(s[4])
  }

  /** `^[0-9]{3,4}$`. */
  predicate IsCvv(s: string) {
    3 <= |s| <= 4 && AllDigits(s)
  }

  /** An expiry is two digits naming a month from 1 to 12, a slash, and two digits for the year. */
  lemma ExpiryMeansMonth(s: string)
    ensures IsExpiry(s) <==>
              && |s| == 5 && s[2] == '/' && AllDigits(s[..2]) && AllDigits(s[3..])
              && 1 <= 10 * DigitValue(s[0]) + DigitValue(s[1]) <= 12
  {
    if |s| == 5 && s[2] == '/' && AllDigits(s[..2]) && AllDigits(s[3..]) {
      assert IsDigit(s[0]) && IsDigit(s[1]) by { assert s[0] == s[..2][0] && s[1] == s[..2][1]; }
      assert IsDigit(s[3]) && IsDigit(s[4]) by { assert s[3] == s[3..][0] && s[4] == s[3..][1]; }
    }
  }

  /** The reason a submission is turned away, in the order the checks run. */
  datatype PaymentError = MissingDetails | BadCardNumber | BadExpiry | BadCvv

  /** The first failing check on the trimmed fields, if any. */
  function CheckPaymentDetails(cardNumber: string, expiryDate: string, cvv: string): (e: Option<PaymentError>)
    ensures e.None? <==> IsCardNumber(Trim(cardNumber)) && IsExpiry(Trim(expiryDate)) && IsCvv(Trim(cvv))
    ensures e == Some(MissingDetails) <==> IsBlank(cardNumber) || IsBlank(expiryDate) || IsBlank(cvv)
    ensures e == Some(BadCardNumber) <==>
              !IsBlank(cardNumber) && !IsBlank(expiryDate) && !IsBlank(cvv) && !IsCardNumber(Trim(cardNumber))
    ensures e == Some(BadExpiry) <==>
              && !IsBlank(cardNumber) && !IsBlank(expiryDate) && !IsBlank(cvv)
              && IsCardNumber(Trim(cardNumber)) && !IsExpiry(Trim(expiryDate))
    ensures e == Some(BadCvv) <==>
              && !IsBlank(cardNumber) && !IsBlank(expiryDate) && !IsBlank(cvv)
              && IsCardNumber(Trim(cardNumber)) && IsExpiry(Trim(expiryDate)) && !IsCvv(Trim(cvv))
  {
    var card := Trim(cardNumber);
    var expiry := Trim(expiryDate);
    var code := Trim(cvv);
    if |card| == 0 || |expiry| == 0 || |code| == 0 then Some(MissingDetails)
    else if !IsCardNumber(card) then Some(BadCardNumber)
    else if !IsExpiry(expiry) then Some(BadExpiry)
    else if !IsCvv(code) then Some(BadCvv)
    else None
  }

  /** `simulatePayment`: the stand-in gateway accepts any three non-empty fields. */
  function SimulatePayment(cardNumber: string, expiryDate: string, cvv: string): (approved: bool)
    ensures approved <==> |cardNumber| > 0 && |expiryDate| > 0 && |cvv| > 0
  {
    |cardNumber| > 0 && |expiryDate| > 0 && |cvv| > 0
  }

  /** Details that pass the checks are always approved, so the declined branch of the window is dead. */
  lemma CheckedDetailsAreApproved(cardNumber: string, expiryDate: string, cvv: string)
    requires CheckPaymentDetails(cardNumber, expiryDate, cvv).None?
    ensures SimulatePayment(Trim(cardNumber), Trim(expiryDate), Trim(cvv))
  {
  }

  datatype PaymentResult = Rejected(reason: PaymentError) | Paid | StatusNotUpdated

  /**
   * The Pay button: run the checks, then `processPayment(bookingId)` once.
   * The gateway step is left implicit: it approves every request that gets
   * this far.
   */
  function SubmitPayment(s: Store, bookingId: int, cardNumber: string, expiryDate: string, cvv: string, ok: bool)
    : (r: (Store, PaymentResult))
    ensures r.1.Rejected? <==> CheckPaymentDetails(cardNumber, expiryDate, cvv).Some?
    ensures r.1.Rejected? ==> r == (s, Rejected(CheckPaymentDetails(cardNumber, expiryDate, cvv).value))
    ensures r.1 == Paid <==> CheckPaymentDetails(cardNumber, expiryDate, cvv).None? && ok && bookingId in s.bookings
    ensures r.1 == Paid ==> r.0.bookings == s.bookings[bookingId := s.bookings[bookingId].(status := Bookings.PAID)]
    ensures r.1 != Paid ==> r.0 == s
  {
    match CheckPaymentDetails(cardNumber, expiryDate, cvv)
    case Some(e) => (s, Rejected(e))
    case None =>
      var (t, updated) := BookingSystem.ProcessPayment(s, bookingId, ok);
      (t, if updated then Paid else StatusNotUpdated)
  }
}
