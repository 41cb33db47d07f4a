/** The fields of a contact (`Phone`, `Birthday` in `classes.py`) and the
    updates `Record` applies to its phone list and birthday, written as pure
    functions of the old field value. The `Record` class in `Contacts` is
    specified by these functions. */
module Fields {
  import opened Common
  import opened Dates

  // ---------------------------------------------------------------------
  // Phone

  /** What `Phone(value)` accepts: ten characters, all numeric. */
  predicate IsPhone(v: string)
  {
    |v| == 10 && AllDigits(v)
  }

  predicate AllPhones(ps: seq<string>)
  {
    forall i :: 0 <= i < |ps| ==> IsPhone(ps[i])
  }

  /** `Phone(value)`: the value, or `ValueError` for anything but ten numeric characters. */
  function NewPhone(v: string): (r: Result<string>)
    ensures r.Success? <==> |v| == 10 && forall i :: 0 <= i < |v| ==> '0' <= v[i] <= '9'
    ensures r.Success? ==> r.value == v
    ensures r.Failure? ==> r.error == ValueError
  {
    if IsPhone(v) then Success(v) else Failure(ValueError)
  }

  /** `Record.add_phone`: the new phone list, or the exception (the list is then unchanged). */
  function AddPhone(ps: seq<string>, p: string): Result<seq<string>>
  {
    match NewPhone(p)
    case Failure(e) => Failure(e)
    case Success(v) => if v in ps then Failure(ValueError) else Success(ps + [v])
  }

  /** `add_phone` appends exactly the valid numbers not yet stored and raises
      `ValueError` otherwise; so it keeps the list valid and duplicate-free. */
  lemma AddPhoneSpec(ps: seq<string>, p: string)
    ensures AddPhone(ps, p).Success? <==> IsPhone(p) && p !in ps
    ensures AddPhone(ps, p).Success? ==> AddPhone(ps, p).value == ps + [p]
    ensures AddPhone(ps, p).Failure? ==> AddPhone(ps, p).error == ValueError
    ensures AllPhones(ps) && Distinct(ps) ==>
              var after := StateAfter(AddPhone(ps, p), ps); AllPhones(after) && Distinct(after)
  {
  }

  /** Number of leading entries equal to `x`. */
  function MatchingPrefix(ps: seq<string>, x: string): (k: nat)
    ensures k <= |ps|
    ensures forall i :: 0 <= i < k ==> ps[i] == x
    ensures k < |ps| ==> ps[k] != x
  {
    if ps == [] || ps[0] != x then 0 else 1 + MatchingPrefix(ps[1..], x)
  }

  /** The phone list after `edit_phone`, and how the call ended. */
  datatype Edit = Edit(phones: seq<string>, outcome: Outcome)

  /** `Record.edit_phone` as written: an invalid new number raises before any
      change; otherwise the loop rewrites each stored phone equal to the old
      number and raises at the first one that differs, leaving the rewrites
      before it in place. */
  function EditPhone(ps: seq<string>, oldNumber: string, newNumber: string): Edit
  {
    if !IsPhone(newNumber) then Edit(ps, Raised(ValueError))
    else
      var k := MatchingPrefix(ps, oldNumber);
      Edit(seq(k, _ => newNumber) + ps[k..], if k == |ps| then Returned else Raised(ValueError))
  }

  /** A list whose first `k` entries were the old number and now are the new
      one, the rest unchanged, up to the first mismatch or the end, is what
      `EditPhone` leaves. */
  lemma Rewritten(ps: seq<string>, before: seq<string>, oldNumber: string, newNumber: string, k: int)
    requires IsPhone(newNumber) && |ps| == |before| && 0 <= k <= |before|
    requires forall j :: 0 <= j < k ==> before[j] == oldNumber && ps[j] == newNumber
    requires forall j :: k <= j < |ps| ==> ps[j] == before[j]
    requires k < |before| ==> before[k] != oldNumber
    ensures EditPhone(before, oldNumber, newNumber) == Edit(ps, if k == |before| then Returned else Raised(ValueError))
  {
    MatchingPrefixIs(before, oldNumber, k);
    assert ps == seq(k, _ => newNumber) + before[k..];
  }

  lemma MatchingPrefixIs(ps: seq<string>, x: string, k: int)
    requires 0 <= k <= |ps| && (forall j :: 0 <= j < k ==> ps[j] == x) && (k < |ps| ==> ps[k] != x)
    ensures MatchingPrefix(ps, x) == k
  {
  }

  /** `edit_phone` completes iff the new number is valid and every stored
      phone is the old number (an empty list included); each entry afterwards
      is either untouched or an old number turned into the new one. */
  lemma EditPhoneSpec(ps: seq<string>, oldNumber: string, newNumber: string)
    ensures var e := EditPhone(ps, oldNumber, newNumber);
      && (e.outcome == Returned <==> IsPhone(newNumber) && forall i :: 0 <= i < |ps| ==> ps[i] == oldNumber)
      && (e.outcome != Returned ==> e.outcome == Raised(ValueError))
      && (!IsPhone(newNumber) ==> e.phones == ps)
      && |e.phones| == |ps|
      && (forall i :: 0 <= i < |ps| ==> e.phones[i] == ps[i] || (ps[i] == oldNumber && e.phones[i] == newNumber))
      && (e.outcome == Returned ==> forall i :: 0 <= i < |ps| ==> e.phones[i] == newNumber)
  {
  }

  /** Whatever happens, `edit_phone` stores only valid numbers. */
  lemma EditPhoneKeepsPhones(ps: seq<string>, oldNumber: string, newNumber: string)
    requires AllPhones(ps)
    ensures AllPhones(EditPhone(ps, oldNumber, newNumber).phones)
  {
  }

  /** On a duplicate-free list, `edit_phone` completes only for a contact with
      no phone or with the old number as its only phone. */
  lemma {:induction false} EditPhoneOnDistinct(ps: seq<string>, oldNumber: string, newNumber: string)
    requires Distinct(ps)
    ensures (EditPhone(ps, oldNumber, newNumber).outcome == Returned)
              <==> IsPhone(newNumber) && (ps == [] || ps == [oldNumber])
  {
    if |ps| >= 2 {
      assert ps[0] != ps[1];
    }
  }

  /** Changing the second phone of a two-phone contact raises with nothing changed. */
  lemma EditPhoneStopsAtFirstMismatch()
    ensures var ps := ["1111111111", "2222222222"];
      EditPhone(ps, "2222222222", "3333333333") == Edit(ps, Raised(ValueError))
  {
  }

  /** Changing the first phone of a two-phone contact into the second rewrites
      it and then raises, leaving the same number stored twice. */
  lemma EditPhoneCanDuplicate()
    ensures var ps := ["1111111111", "2222222222"];
      var e := EditPhone(ps, "1111111111", "2222222222");
      && Distinct(ps)
      && e == Edit(["2222222222", "2222222222"], Raised(ValueError))
      && !Distinct(e.phones)
  {
    var ps := ["1111111111", "2222222222"];
    assert ps[0][0] != ps[1][0];
    assert MatchingPrefix(ps, "1111111111") == 1;
    var e := EditPhone(ps, "1111111111", "2222222222");
    assert e.phones == seq(1, _ => "2222222222") + ps[1..];
    assert e.phones == ["2222222222", "2222222222"];
    assert e.outcome == Raised(ValueError);
    assert Distinct(ps);
    assert e.phones[0] == e.phones[1];
  }

  /** `edit_phone` as evidently intended: the new number must be valid, the old
      number must be stored and the new one must not already be stored as
      another entry; then the old number is replaced where it stands. */
  function EditPhoneCorrected(ps: seq<string>, oldNumber: string, newNumber: string): Result<seq<string>>
  {
    if !IsPhone(newNumber) || oldNumber !in ps || (newNumber != oldNumber && newNumber in ps) then
      Failure(ValueError)
    else
      Success(seq(|ps|, i requires 0 <= i < |ps| => if ps[i] == oldNumber then newNumber else ps[i]))
  }

  /** The corrected edit succeeds exactly when the old number is stored and the
      new one is valid and fresh, keeps the list valid and duplicate-free,
      and afterwards the new number is stored and the old one is gone. */
  lemma EditPhoneCorrectedSpec(ps: seq<string>, oldNumber: string, newNumber: string)
    requires AllPhones(ps) && Distinct(ps)
    ensures var r := EditPhoneCorrected(ps, oldNumber, newNumber);
      && (r.Success? <==> IsPhone(newNumber) && oldNumber in ps && (newNumber == oldNumber || newNumber !in ps))
      && (r.Success? ==>
            && |r.value| == |ps| && AllPhones(r.value) && Distinct(r.value)
            && newNumber in r.value
            && (newNumber != oldNumber ==> oldNumber !in r.value)
            && (forall q :: q in ps && q != oldNumber ==> q in r.value))
  {
    var r := EditPhoneCorrected(ps, oldNumber, newNumber);
    if r.Success? {
      var s := r.value;
      var j :| 0 <= j < |ps| && ps[j] == oldNumber;
      assert s[j] == newNumber;
      forall q | q in ps && q != oldNumber ensures q in s {
        var i :| 0 <= i < |ps| && ps[i] == q;
        assert s[i] == q;
      }
    }
  }

  /** `Record.remove_phone`: every entry equal to `p` is dropped. */
  function RemovePhone(ps: seq<string>, p: string): seq<string>
  {
    Without(ps, p)
  }

  /** `remove_phone` never fails, removes every copy of the number, keeps the
      count of every other number, and keeps the list valid and duplicate-free. */
  lemma RemovePhoneSpec(ps: seq<string>, p: string)
    ensures multiset(RemovePhone(ps, p)) == multiset(ps)[p := 0]
    ensures p !in RemovePhone(ps, p)
    ensures AllPhones(ps) ==> AllPhones(RemovePhone(ps, p))
    ensures Distinct(ps) ==> Distinct(RemovePhone(ps, p))
  {
    WithoutCounts(ps, p);
    var r := RemovePhone(ps, p);
    if AllPhones(ps) {
      forall i | 0 <= i < |r| ensures IsPhone(r[i]) {
        assert r[i] in ps;
      }
    }
    if Distinct(ps) {
      WithoutDistinct(ps, p);
    }
  }

  /** `remove_phone` keeps the order of the phones it keeps: filtering a list
      is filtering its two halves one after the other. */
  lemma {:induction false} RemovePhoneKeepsOrder(a: seq<string>, b: seq<string>, p: string)
    ensures RemovePhone(a + b, p) == RemovePhone(a, p) + RemovePhone(b, p)
  {
    if a == [] {
      assert a + b == b;
    } else {
      assert (a + b)[0] == a[0] && (a + b)[1..] == a[1..] + b;
      RemovePhoneKeepsOrder(a[1..], b, p);
    }
  }

  /** `'; '.join(phones)`. */
  function Join(ps: seq<string>): string
  {
    if ps == [] then ""
    else if |ps| == 1 then ps[0]
    else ps[0] + "; " + Join(ps[1..])
  }

  /** The joined phones sit at offsets 0, 12, 24, ..., each followed by "; "
      except the last. */
  lemma {:induction false} JoinLayout(ps: seq<string>)
    requires AllPhones(ps)
    ensures |Join(ps)| == if ps == [] then 0 else 12 * |ps| - 2
    ensures forall i :: 0 <= i < |ps| ==> Join(ps)[12 * i .. 12 * i + 10] == ps[i]
    ensures forall i :: 0 <= i < |ps| - 1 ==> Join(ps)[12 * i + 10 .. 12 * i + 12] == "; "
  {
    if |ps| >= 2 {
      var rest := Join(ps[1..]);
      JoinLayout(ps[1..]);
      var s := Join(ps);
      assert s == ps[0] + "; " + rest;
      forall i | 0 <= i < |ps| ensures s[12 * i .. 12 * i + 10] == ps[i] {
        if i > 0 {
          assert s[12 * i .. 12 * i + 10] == rest[12 * (i - 1) .. 12 * (i - 1) + 10];
        }
      }
      forall i | 0 <= i < |ps| - 1 ensures s[12 * i + 10 .. 12 * i + 12] == "; " {
        if i > 0 {
          assert s[12 * i + 10 .. 12 * i + 12] == rest[12 * (i - 1) + 10 .. 12 * (i - 1) + 12];
        }
      }
    }
  }

  // ---------------------------------------------------------------------
  // Birthday

  /** `Record.add_birthday` as written: the date to store, or the exception
      (the stored birthday is then unchanged). Its duplicate check compares
      the parsed `date` with the stored `Birthday` object or `None`; a `date`
      never equals either, so the check never fires and `stored` plays no part. */
  function AddBirthday(stored: Option<Date>, text: string): Result<Date>
  {
    match Parse(text)
    case Failure(e) => Failure(e)
    case Success(d) => Success(d)
  }

  /** `add_birthday` accepts exactly the strings that parse, raising
      `ValueError` otherwise, and stores the date the string spells. */
  lemma AddBirthdaySpec(stored: Option<Date>, text: string)
    ensures var r := AddBirthday(stored, text);
      && (r.Success? <==> Parse(text).Success?)
      && (r.Failure? ==> r.error == ValueError)
      && (r.Success? ==> IsValid(r.value) && Format(r.value) == text)
  {
    if Parse(text).Success? {
      FormatParse(text);
    }
  }

  /** Resubmitting the stored birthday is accepted: the duplicate check never fires. */
  lemma BirthdayResubmissionAccepted(d: Date)
    requires IsValid(d)
    ensures AddBirthday(Some(d), Format(d)) == Success(d)
  {
    ParseFormat(d);
  }

  /** `add_birthday` as evidently intended: the parsed date is compared with
      the stored date, and a resubmission raises `ValueError`. */
  function AddBirthdayCorrected(stored: Option<Date>, text: string): Result<Date>
  {
    match Parse(text)
    case Failure(e) => Failure(e)
    case Success(d) => if stored == Some(d) then Failure(ValueError) else Success(d)
  }

  /** The corrected check rejects exactly the resubmission of the stored date
      and otherwise behaves as the program does. */
  lemma AddBirthdayCorrectedSpec(stored: Option<Date>, text: string)
    ensures stored.Some? && IsValid(stored.value) ==>
              AddBirthdayCorrected(stored, Format(stored.value)) == Failure(ValueError)
    ensures AddBirthdayCorrected(stored, text).Success? <==>
              AddBirthday(stored, text).Success? && stored != Some(AddBirthday(stored, text).value)
    ensures AddBirthdayCorrected(stored, text).Success? ==>
              AddBirthdayCorrected(stored, text) == AddBirthday(stored, text)
  {
    if stored.Some? && IsValid(stored.value) {
      ParseFormat(stored.value);
    }
  }
}
