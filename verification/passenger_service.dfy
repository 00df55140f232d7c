/**
 * `PassengerService.java`: the required-field check and the create, update
 * and display operations built on it. A Java `null` argument is `None`.
 */
module PassengerService {
  import opened Wrappers
  import opened JavaText
  import opened People
  import opened Store
  import Database

  /** `validatePassengerInfo`: name, passport number and date of birth are each present and not blank. */
  predicate ValidatePassengerInfo(name: Option<string>, passportNumber: Option<string>, dateOfBirth: Option<string>) {
    IsNotBlank(name) && IsNotBlank(passportNumber) && IsNotBlank(dateOfBirth)
  }

  /** Each of the three fields is valid when it is non-null and holds a character `trim` keeps. */
  lemma ValidatePassengerInfoMeans(name: Option<string>, passportNumber: Option<string>, dateOfBirth: Option<string>)
    ensures ValidatePassengerInfo(name, passportNumber, dateOfBirth) <==>
              && name.Some? && (exists i :: 0 <= i < |name.value| && !IsTrimmable(name.value[i]))
              && passportNumber.Some? && (exists i :: 0 <= i < |passportNumber.value| && !IsTrimmable(passportNumber.value[i]))
              && dateOfBirth.Some? && (exists i :: 0 <= i < |dateOfBirth.value| && !IsTrimmable(dateOfBirth.value[i]))
  {
    IsNotBlankMeans(name);
    IsNotBlankMeans(passportNumber);
    IsNotBlankMeans(dateOfBirth);
  }

  /**
   * `createPassenger`: validate, insert the row (special requests as given),
   * and return a `Passenger` built with the four-argument constructor, so
   * its special requests are empty whatever was stored. A -1 from the
   * insert is a failure.
   */
  function CreatePassenger(s: Store, name: Option<string>, passportNumber: Option<string>, dateOfBirth: Option<string>,
                           specialRequests: Option<string>, ok: bool): (r: (Store, Option<Passenger>))
    ensures !ValidatePassengerInfo(name, passportNumber, dateOfBirth) ==> r == (s, None)
    ensures r.1.Some? <==> && ValidatePassengerInfo(name, passportNumber, dateOfBirth)
                           && ok && !Database.PassportTaken(s, passportNumber.value) && s.nextPassengerId != -1
    ensures r.1.Some? ==> r.1.value == Passenger(s.nextPassengerId, name.value, passportNumber.value, dateOfBirth.value, "")
    ensures r.1.Some? ==>
              r.0.passengers == s.passengers[s.nextPassengerId := PassengerRow(name.value, passportNumber.value, dateOfBirth.value, specialRequests)]
    ensures r.1.Some? ==> r.0.nextPassengerId == s.nextPassengerId + 1
    ensures r.1.None? && s.nextPassengerId != -1 ==> r.0 == s
    ensures r.0 == s.(passengers := r.0.passengers, nextPassengerId := r.0.nextPassengerId)
  {
    if !ValidatePassengerInfo(name, passportNumber, dateOfBirth) then (s, None)
    else
      var (t, passengerId) := Database.SavePassenger(s, name.value, passportNumber.value, dateOfBirth.value, specialRequests, ok);
      if passengerId == -1 then (t, None)
      else (t, Some(NewPassenger(passengerId, name.value, passportNumber.value, dateOfBirth.value)))
  }

  /** `updatePassengerInfo`: validate, then rewrite the passenger's row. */
  function UpdatePassengerInfo(s: Store, passengerId: int, name: Option<string>, passportNumber: Option<string>,
                               dateOfBirth: Option<string>, specialRequests: Option<string>, ok: bool): (r: (Store, bool))
    ensures !ValidatePassengerInfo(name, passportNumber, dateOfBirth) ==> r == (s, false)
    ensures r.1 <==> && ValidatePassengerInfo(name, passportNumber, dateOfBirth) && ok && passengerId in s.passengers
                     && forall id :: id in s.passengers && id != passengerId ==> s.passengers[id].passportNumber != passportNumber.value
    ensures !r.1 ==> r.0 == s
    ensures r.1 ==>
              r.0.passengers == s.passengers[passengerId := PassengerRow(name.value, passportNumber.value, dateOfBirth.value, specialRequests)]
    ensures r.0 == s.(passengers := r.0.passengers)
  {
    if !ValidatePassengerInfo(name, passportNumber, dateOfBirth) then (s, false)
    else Database.UpdatePassenger(s, passengerId, name.value, passportNumber.value, dateOfBirth.value, specialRequests, ok)
  }

  /** The text shown for special requests: `None` when there are none. */
  function RequestsText(specialRequests: string): (t: string)
    ensures |specialRequests| == 0 ==> t == "None"
    ensures |specialRequests| > 0 ==> t == specialRequests
  {
    if |specialRequests| == 0 then "None" else specialRequests
  }

  /** The middle piece of a three-part concatenation is found at its offset. */
  lemma PieceAt(a: string, b: string, c: string)
    ensures (a + b + c)[|a|..|a| + |b|] == b
  {
  }

  /**
   * `getPassengerDetails`: four labelled lines. The text opens with the
   * name, then the passport number and the date of birth, and closes with
   * the special requests, or `None` when there are none.
   */
  function GetPassengerDetails(p: Passenger): (details: string)
    ensures |details| > 11 + |p.name| && details[..11 + |p.name|] == "Passenger: " + p.name
    ensures var i := 11 + |p.name|;
            var j := i + 11 + |p.passportNumber|;
            |details| > j + 16 + |p.dateOfBirth|
            && details[i..j] == "\nPassport: " + p.passportNumber
            && details[j..j + 16 + |p.dateOfBirth|] == "\nDate of Birth: " + p.dateOfBirth
            && details[j + 16 + |p.dateOfBirth|..] == "\nSpecial Requests: " + RequestsText(p.specialRequests)
    ensures |p.specialRequests| == 0 ==> |details| >= 4 && details[|details| - 4..] == "None"
    ensures |p.specialRequests| > 0 ==>
              |details| > |p.specialRequests| && details[|details| - |p.specialRequests|..] == p.specialRequests
  {
    var head := "Passenger: " + p.name;
    var passport := "\nPassport: " + p.passportNumber;
    var birth := "\nDate of Birth: " + p.dateOfBirth;
    var tail := RequestsText(p.specialRequests);
    var rest := "\nSpecial Requests: " + tail;
    var details := head + passport + birth + rest;
    assert details == head + (passport + birth + rest);
    assert details == (head + passport + birth + "\nSpecial Requests: ") + tail;
    PieceAt(head, passport, birth + rest);
    assert details == head + passport + (birth + rest);
    PieceAt(head + passport, birth, rest);
    assert details[|head| + |passport| + |birth|..] == rest;
    details
  }

  /** The details cannot tell a passenger with no special requests from one whose request is the text `None`. */
  lemma NoRequestsLookLikeNone(p: Passenger)
    ensures GetPassengerDetails(p.(specialRequests := "")) == GetPassengerDetails(p.(specialRequests := "None"))
  {
  }

  /** A passenger just created shows `None` for special requests, whatever requests were stored with it. */
  lemma CreatedPassengerShowsNoRequests(s: Store, name: Option<string>, passportNumber: Option<string>,
                                        dateOfBirth: Option<string>, specialRequests: Option<string>, ok: bool)
    requires CreatePassenger(s, name, passportNumber, dateOfBirth, specialRequests, ok).1.Some?
    ensures var p := CreatePassenger(s, name, passportNumber, dateOfBirth, specialRequests, ok).1.value;
            var details := GetPassengerDetails(p);
            |details| >= 4 && details[|details| - 4..] == "None"
  {
  }

  /**
   * Updating a passenger's details keeps passport numbers unique and ids
   * fresh, and a successful update reads back under the passenger's id.
   */
  lemma UpdatePassengerInfoKeepsPassportsUnique(s: Store, passengerId: int, name: Option<string>, passportNumber: Option<string>,
                                                dateOfBirth: Option<string>, specialRequests: Option<string>, ok: bool)
    requires WellFormed(s) && Database.UniquePassports(s.passengers)
    ensures var (t, updated) := UpdatePassengerInfo(s, passengerId, name, passportNumber, dateOfBirth, specialRequests, ok);
            && WellFormed(t) && Database.UniquePassports(t.passengers)
            && (updated ==> t.passengers[passengerId] == PassengerRow(name.value, passportNumber.value, dateOfBirth.value, specialRequests))
  {
    if ValidatePassengerInfo(name, passportNumber, dateOfBirth) {
      Database.PassengerWritesKeepPassportsUnique(s, passengerId, name.value, passportNumber.value, dateOfBirth.value,
                                                  specialRequests, ok);
    }
  }
}
