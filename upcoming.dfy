/** The upcoming-birthday query of `AddressBook.get_upcoming_birthdays`, as a
    function of the contacts (name and birthday, in book order) and of the
    day the query runs. */
module Upcoming {
  import opened Common
  import opened Dates

  /** A contact as the query sees it: its name and its birthday, if set. */
  datatype Person = Person(name: string, birthday: Option<Date>)

  /** One congratulation: who, their birthday, and the day to congratulate them. */
  datatype Greeting = Greeting(name: string, birthday: Date, congratulation: Date)

  /** The dictionary the query appends, its dates printed as DD.MM.YYYY. */
  datatype Entry = Entry(name: string, birthday: string, congratulationDate: string)

  predicate ValidPeople(people: seq<Person>)
  {
    forall i :: 0 <= i < |people| ==> people[i].birthday.Some? ==> IsValid(people[i].birthday.value)
  }

  predicate ValidGreetings(gs: seq<Greeting>)
  {
    forall i :: 0 <= i < |gs| ==> IsValid(gs[i].birthday) && IsValid(gs[i].congratulation)
  }

  /** The birthday's month and day in `today`'s year, or in the next year when
      that date is before `today`; `ValueError` when `date.replace` cannot
      build the date (29 February outside a leap year, or year 10000). */
  function NextOccurrence(birthday: Date, today: Date): (r: Result<Date>)
    requires IsValid(birthday) && IsValid(today)
    ensures r.Success? ==> IsValid(r.value) && r.value.month == birthday.month && r.value.day == birthday.day
    ensures r.Success? ==> !Before(r.value, today)
    ensures r.Success? ==>
              || r.value.year == today.year
              || (r.value.year == today.year + 1 && Before(birthday.(year := today.year), today))
    ensures r.Failure? ==> r.error == ValueError
    ensures r.Failure? <==>
              || !IsValid(birthday.(year := today.year))
              || (Before(birthday.(year := today.year), today) && !IsValid(birthday.(year := today.year + 1)))
    ensures r.Failure? ==> (birthday.month == 2 && birthday.day == 29) || today.year == MaxYear
    ensures birthday.month == 2 && birthday.day == 29 && !IsLeap(today.year) ==> r.Failure?
  {
    var thisYear := birthday.(year := today.year);
    if !IsValid(thisYear) then
      Failure(ValueError)
    else if Before(thisYear, today) then
      var nextYear := birthday.(year := today.year + 1);
      if IsValid(nextYear) then Success(nextYear) else Failure(ValueError)
    else
      Success(thisYear)
  }

  /** The occurrence is on or after `today` in day numbers too. */
  lemma NextOccurrenceNotBefore(birthday: Date, today: Date)
    requires IsValid(birthday) && IsValid(today)
    ensures var r := NextOccurrence(birthday, today);
      r.Success? ==> Ordinal(today) <= Ordinal(r.value)
  {
    var r := NextOccurrence(birthday, today);
    if r.Success? && r.value != today {
      OrdinalIncreasing(today, r.value);
    }
  }

  /** A Saturday or a Sunday is at least one day before `date.max` (a Friday). */
  lemma WeekendBeforeLast(d: Date)
    requires IsValid(d) && Weekday(d) >= 5
    ensures Ordinal(d) + 7 - Weekday(d) <= Ordinal(Last)
  {
    OrdinalRange(d);
    LastIsFriday();
    WeekendStep(Ordinal(d));
  }

  /** The day to congratulate on: the occurrence itself on Monday to Friday,
      the following Monday (`+ timedelta(days=7 - weekday)`) on a weekend. */
  function Congratulation(occurrence: Date): (c: Date)
    requires IsValid(occurrence)
    ensures IsValid(c)
  {
    var w := Weekday(occurrence);
    if w == 5 || w == 6 then
      WeekendBeforeLast(occurrence);
      AddDays(occurrence, 7 - w)
    else
      occurrence
  }

  /** The congratulation falls on Monday to Friday, at most two days after the
      occurrence: the occurrence itself on a weekday, else a Monday. */
  lemma CongratulationSpec(occurrence: Date)
    requires IsValid(occurrence)
    ensures var c := Congratulation(occurrence);
      && Weekday(c) < 5
      && 0 <= Ordinal(c) - Ordinal(occurrence) <= 2
      && (Weekday(occurrence) < 5 ==> c == occurrence)
      && (Weekday(occurrence) >= 5 ==> Weekday(c) == 0)
  {
    var w := Weekday(occurrence);
    if w == 5 || w == 6 {
      MondayAfter(occurrence, Congratulation(occurrence));
    }
  }

  /** What one contact adds to the list: nothing without a birthday or when the
      next occurrence is more than seven days away, else one greeting. */
  function GreetingFor(person: Person, today: Date): Result<seq<Greeting>>
    requires (person.birthday.Some? ==> IsValid(person.birthday.value)) && IsValid(today)
  {
    match person.birthday
    case None => Success([])
    case Some(b) =>
      match NextOccurrence(b, today)
      case Failure(e) => Failure(e)
      case Success(occurrence) =>
        if 0 <= Ordinal(occurrence) - Ordinal(today) <= 7 then
          Success([Greeting(person.name, b, Congratulation(occurrence))])
        else
          Success([])
  }

  /** What each contact's turn of the loop yields, in book order. */
  function Steps(people: seq<Person>, today: Date): (steps: seq<Result<seq<Greeting>>>)
    requires ValidPeople(people) && IsValid(today)
    ensures |steps| == |people|
    ensures forall i :: 0 <= i < |people| ==> steps[i] == GreetingFor(people[i], today)
  {
    if people == [] then [] else [GreetingFor(people[0], today)] + Steps(people[1..], today)
  }

  /** `gs` followed by the result of the rest of the loop, unless that raised. */
  function Prepend(gs: seq<Greeting>, r: Result<seq<Greeting>>): Result<seq<Greeting>>
  {
    match r
    case Failure(e) => Failure(e)
    case Success(rest) => Success(gs + rest)
  }

  /** The loop over the turns: what every turn yields, in order, or the
      exception of the first turn that raised. */
  function Gather(steps: seq<Result<seq<Greeting>>>): Result<seq<Greeting>>
  {
    if steps == [] then Success([])
    else
      match steps[0]
      case Failure(e) => Failure(e)
      case Success(gs) => Prepend(gs, Gather(steps[1..]))
  }

  /** Each turn yields at most one greeting, that of its own contact, with real dates. */
  predicate OwnTurns(steps: seq<Result<seq<Greeting>>>, people: seq<Person>)
  {
    && |steps| == |people|
    && forall i :: 0 <= i < |steps| && steps[i].Success? ==>
         && |steps[i].value| <= 1
         && forall g :: g in steps[i].value ==>
              Person(g.name, Some(g.birthday)) == people[i] && IsValid(g.birthday) && IsValid(g.congratulation)
  }

  lemma OwnTurnsTail(steps: seq<Result<seq<Greeting>>>, people: seq<Person>)
    requires OwnTurns(steps, people) && steps != []
    ensures OwnTurns(steps[1..], people[1..])
  {
    forall i | 0 <= i < |steps[1..]| && steps[1..][i].Success?
      ensures |steps[1..][i].value| <= 1
      ensures forall g :: g in steps[1..][i].value ==>
                Person(g.name, Some(g.birthday)) == people[1..][i] && IsValid(g.birthday) && IsValid(g.congratulation)
    {
      assert steps[1..][i] == steps[i + 1] && people[1..][i] == people[i + 1];
    }
  }

  /** When every turn is its own contact's, the loop reports at most one
      greeting per contact, each with real dates. */
  lemma {:induction false} GatherValid(steps: seq<Result<seq<Greeting>>>, people: seq<Person>)
    requires OwnTurns(steps, people)
    ensures Gather(steps).Success? ==> ValidGreetings(Gather(steps).value) && |Gather(steps).value| <= |steps|
  {
    if steps != [] && Gather(steps).Success? {
      OwnTurnsTail(steps, people);
      GatherValid(steps[1..], people[1..]);
      var gs := steps[0].value;
      var r := Gather(steps).value;
      assert r == gs + Gather(steps[1..]).value;
      forall i | 0 <= i < |r|
        ensures IsValid(r[i].birthday) && IsValid(r[i].congratulation)
      {
        if i < |gs| {
          assert r[i] in gs;
        } else {
          assert r[i] == Gather(steps[1..]).value[i - |gs|];
        }
      }
    }
  }

  /** The turn the `j`-th reported greeting came from. */
  ghost function Origin(steps: seq<Result<seq<Greeting>>>, j: int): (i: nat)
    requires Gather(steps).Success? && 0 <= j < |Gather(steps).value|
    ensures i < |steps| && steps[i].Success? && Gather(steps).value[j] in steps[i].value
  {
    var gs := steps[0].value;
    assert Gather(steps).value == gs + Gather(steps[1..]).value;
    if j < |gs| then
      0
    else
      var i := Origin(steps[1..], j - |gs|);
      assert steps[1..][i] == steps[i + 1];
      i + 1
  }

  /** With at most one greeting a turn, later greetings come from later turns. */
  lemma {:induction false} OriginIncreasing(steps: seq<Result<seq<Greeting>>>, people: seq<Person>, j: int, k: int)
    requires OwnTurns(steps, people)
    requires Gather(steps).Success? && 0 <= j < k < |Gather(steps).value|
    ensures Origin(steps, j) < Origin(steps, k)
  {
    var gs := steps[0].value;
    if |gs| <= j {
      OwnTurnsTail(steps, people);
      OriginIncreasing(steps[1..], people[1..], j - |gs|, k - |gs|);
    }
  }

  /** A greeting some turn yields is reported, unless the loop raised. */
  lemma {:induction false} GatherReports(steps: seq<Result<seq<Greeting>>>, i: int, g: Greeting)
    requires 0 <= i < |steps| && steps[i].Success? && g in steps[i].value
    ensures Gather(steps).Success? ==> g in Gather(steps).value
  {
    if i > 0 && steps[0].Success? {
      assert steps[1..][i - 1] == steps[i];
      GatherReports(steps[1..], i - 1, g);
    }
  }

  /** A turn that raises makes the loop raise. */
  lemma {:induction false} GatherFailsAt(steps: seq<Result<seq<Greeting>>>, i: int)
    requires 0 <= i < |steps| && steps[i].Failure?
    ensures Gather(steps).Failure?
  {
    if i > 0 && steps[0].Success? {
      assert steps[1..][i - 1] == steps[i];
      GatherFailsAt(steps[1..], i - 1);
    }
  }

  /** When the loop raises, it is with the exception of a turn that raised. */
  lemma {:induction false} GatherFailure(steps: seq<Result<seq<Greeting>>>)
    requires Gather(steps).Failure?
    ensures exists i :: 0 <= i < |steps| && steps[i] == Failure(Gather(steps).error)
  {
    if steps[0].Success? {
      GatherFailure(steps[1..]);
      var i :| 0 <= i < |steps[1..]| && steps[1..][i] == Failure(Gather(steps[1..]).error);
      assert steps[i + 1] == steps[1..][i];
    }
  }

  /** One turn of the loop, over `steps[i]`, with `done` reported so far. */
  lemma GatherStep(steps: seq<Result<seq<Greeting>>>, i: int, done: seq<Greeting>)
    requires 0 <= i < |steps|
    ensures Prepend(done, Gather(steps[i..]))
        == match steps[i]
           case Failure(e) => Failure(e)
           case Success(gs) => Prepend(done + gs, Gather(steps[i + 1..]))
  {
    assert steps[i..][0] == steps[i] && steps[i..][1..] == steps[i + 1..];
    if steps[i].Success? {
      PrependPrepend(done, steps[i].value, Gather(steps[i + 1..]));
    }
  }

  lemma PrependNothing(r: Result<seq<Greeting>>)
    ensures Prepend([], r) == r
  {
    if r.Success? {
      assert [] + r.value == r.value;
    }
  }

  lemma PrependPrepend(done: seq<Greeting>, gs: seq<Greeting>, r: Result<seq<Greeting>>)
    ensures Prepend(done, Prepend(gs, r)) == Prepend(done + gs, r)
  {
    if r.Success? {
      assert done + (gs + r.value) == (done + gs) + r.value;
    }
  }

  /** One contact yields at most one greeting, and it is that contact's own. */
  lemma GreetingForOwn(person: Person, today: Date)
    requires (person.birthday.Some? ==> IsValid(person.birthday.value)) && IsValid(today)
    ensures var r := GreetingFor(person, today);
      r.Success? ==> |r.value| <= 1 && forall g :: g in r.value ==> Person(g.name, Some(g.birthday)) == person
  {
  }

  /** The query's turns are each their own contact's. */
  lemma StepsOwn(people: seq<Person>, today: Date)
    requires ValidPeople(people) && IsValid(today)
    ensures OwnTurns(Steps(people, today), people)
  {
    var steps := Steps(people, today);
    forall i | 0 <= i < |steps| && steps[i].Success?
      ensures |steps[i].value| <= 1
      ensures forall g :: g in steps[i].value ==>
                Person(g.name, Some(g.birthday)) == people[i] && IsValid(g.birthday) && IsValid(g.congratulation)
    {
      GreetingForOwn(people[i], today);
    }
  }

  /** The list `get_upcoming_birthdays` returns, or the exception it raises:
      no more greetings than contacts, all with real dates. */
  function UpcomingBirthdays(people: seq<Person>, today: Date): (r: Result<seq<Greeting>>)
    requires ValidPeople(people) && IsValid(today)
    ensures r.Success? ==> ValidGreetings(r.value) && |r.value| <= |people|
  {
    StepsOwn(people, today);
    GatherValid(Steps(people, today), people);
    Gather(Steps(people, today))
  }

  /** The congratulation of a contact whose birthday's next occurrence is 0 to 7 days away. */
  predicate IsDue(g: Greeting, today: Date)
    requires IsValid(today)
  {
    && IsValid(g.birthday)
    && NextOccurrence(g.birthday, today).Success?
    && var occurrence := NextOccurrence(g.birthday, today).value;
       0 <= Ordinal(occurrence) - Ordinal(today) <= 7 && g.congratulation == Congratulation(occurrence)
  }

  /** A due greeting falls on Monday to Friday, 0 to 9 days after `today`. */
  lemma DueOnWeekday(g: Greeting, today: Date)
    requires IsValid(today) && IsDue(g, today)
    ensures IsValid(g.congratulation) && Weekday(g.congratulation) < 5
    ensures 0 <= Ordinal(g.congratulation) - Ordinal(today) <= 9
  {
    CongratulationSpec(NextOccurrence(g.birthday, today).value);
  }

  /** A greeting one contact yields is due. */
  lemma GreetingForDue(person: Person, today: Date)
    requires (person.birthday.Some? ==> IsValid(person.birthday.value)) && IsValid(today)
    ensures var r := GreetingFor(person, today);
      r.Success? ==> forall g :: g in r.value ==> IsDue(g, today)
  {
  }

  /** `g` is the greeting of some listed contact. */
  predicate Listed(g: Greeting, people: seq<Person>)
  {
    exists i :: 0 <= i < |people| && people[i] == Person(g.name, Some(g.birthday))
  }

  /** Every reported congratulation is due. */
  lemma UpcomingDue(people: seq<Person>, today: Date, j: int)
    requires ValidPeople(people) && IsValid(today)
    requires UpcomingBirthdays(people, today).Success? && 0 <= j < |UpcomingBirthdays(people, today).value|
    ensures IsDue(UpcomingBirthdays(people, today).value[j], today)
  {
    var i := Origin(Steps(people, today), j);
    GreetingForDue(people[i], today);
  }

  /** Every reported congratulation belongs to a listed contact. */
  lemma UpcomingListed(people: seq<Person>, today: Date, j: int)
    requires ValidPeople(people) && IsValid(today)
    requires UpcomingBirthdays(people, today).Success? && 0 <= j < |UpcomingBirthdays(people, today).value|
    ensures Listed(UpcomingBirthdays(people, today).value[j], people)
  {
    var i := Origin(Steps(people, today), j);
    GreetingForOwn(people[i], today);
  }

  /** Every contact whose birthday's next occurrence is 0 to 7 days away is
      reported, with that occurrence's congratulation day. */
  lemma UpcomingComplete(people: seq<Person>, today: Date, i: int)
    requires ValidPeople(people) && IsValid(today)
    requires 0 <= i < |people| && people[i].birthday.Some?
    requires NextOccurrence(people[i].birthday.value, today).Success?
    requires 0 <= Ordinal(NextOccurrence(people[i].birthday.value, today).value) - Ordinal(today) <= 7
    ensures var r := UpcomingBirthdays(people, today);
      var g := Greeting(people[i].name, people[i].birthday.value, Congratulation(NextOccurrence(people[i].birthday.value, today).value));
      r.Success? ==> g in r.value
  {
    var g := Greeting(people[i].name, people[i].birthday.value, Congratulation(NextOccurrence(people[i].birthday.value, today).value));
    GatherReports(Steps(people, today), i, g);
  }

  /** The query raises exactly when some contact's birthday cannot be moved
      into the year of its next occurrence, and then with `ValueError`. */
  lemma UpcomingFails(people: seq<Person>, today: Date)
    requires ValidPeople(people) && IsValid(today)
    ensures var r := UpcomingBirthdays(people, today);
      && (r.Failure? <==> exists i :: 0 <= i < |people| && people[i].birthday.Some? && NextOccurrence(people[i].birthday.value, today).Failure?)
      && (r.Failure? ==> r.error == ValueError)
  {
    var steps := Steps(people, today);
    if Gather(steps).Failure? {
      GatherFailure(steps);
      var i :| 0 <= i < |steps| && steps[i] == Failure(Gather(steps).error);
      assert people[i].birthday.Some? && NextOccurrence(people[i].birthday.value, today).Failure?;
    } else if exists i :: 0 <= i < |people| && people[i].birthday.Some? && NextOccurrence(people[i].birthday.value, today).Failure? {
      var i :| 0 <= i < |people| && people[i].birthday.Some? && NextOccurrence(people[i].birthday.value, today).Failure?;
      GatherFailsAt(steps, i);
    }
  }

  /** Some contact named `x` is listed before some contact named `y`. */
  predicate ListedBefore(x: string, y: string, people: seq<Person>)
  {
    exists a, b :: 0 <= a < b < |people| && people[a].name == x && people[b].name == y
  }

  /** The reported congratulations keep the order of the contacts: a later
      entry comes from a contact listed later. */
  lemma UpcomingInOrder(people: seq<Person>, today: Date, j: int, k: int)
    requires ValidPeople(people) && IsValid(today)
    requires UpcomingBirthdays(people, today).Success? && 0 <= j < k < |UpcomingBirthdays(people, today).value|
    ensures var r := UpcomingBirthdays(people, today).value;
      ListedBefore(r[j].name, r[k].name, people)
  {
    var steps := Steps(people, today);
    StepsOwn(people, today);
    OriginIncreasing(steps, people, j, k);
    var a, b := Origin(steps, j), Origin(steps, k);
    GreetingForOwn(people[a], today);
    GreetingForOwn(people[b], today);
  }

  /** The dictionary for one greeting. */
  function Render(g: Greeting): Entry
    requires IsValid(g.birthday) && IsValid(g.congratulation)
  {
    Entry(g.name, Format(g.birthday), Format(g.congratulation))
  }

  /** Every greeting rendered, in order. */
  function RenderEach(gs: seq<Greeting>): (es: seq<Entry>)
    requires ValidGreetings(gs)
    ensures |es| == |gs|
    ensures forall i :: 0 <= i < |gs| ==> es[i] == Render(gs[i])
  {
    if gs == [] then [] else RenderEach(gs[..|gs| - 1]) + [Render(gs[|gs| - 1])]
  }

  lemma RenderEachConcat(gs: seq<Greeting>, hs: seq<Greeting>)
    requires ValidGreetings(gs) && ValidGreetings(hs)
    ensures ValidGreetings(gs + hs) && RenderEach(gs + hs) == RenderEach(gs) + RenderEach(hs)
  {
  }

  /** The query's result with every greeting rendered. */
  function RenderAll(r: Result<seq<Greeting>>): Result<seq<Entry>>
    requires r.Success? ==> ValidGreetings(r.value)
  {
    match r
    case Failure(e) => Failure(e)
    case Success(gs) => Success(RenderEach(gs))
  }

  /** The loop of `get_upcoming_birthdays` over the contacts in book order:
      skip a contact without a birthday, move the birthday to this year or the
      next, and append the rendered greeting when that day is at most seven
      days away; an exception from `replace` ends the loop. */
  method Collect(people: seq<Person>, today: Date) returns (r: Result<seq<Entry>>)
    requires ValidPeople(people) && IsValid(today)
    ensures r == RenderAll(UpcomingBirthdays(people, today))
  {
    ghost var steps := Steps(people, today);
    ghost var done: seq<Greeting> := [];
    var entries: seq<Entry> := [];
    var i := 0;
    assert steps[i..] == steps;
    PrependNothing(UpcomingBirthdays(people, today));
    while i < |people|
      invariant 0 <= i <= |people|
      invariant ValidGreetings(done)
      invariant UpcomingBirthdays(people, today) == Prepend(done, Gather(steps[i..]))
      invariant entries == RenderEach(done)
    {
      GatherStep(steps, i, done);
      var found := GreetingFor(people[i], today);
      if found.Failure? {
        return Failure(found.error);
      }
      GreetingForOwn(people[i], today);
      RenderEachConcat(done, found.value);
      entries := entries + RenderEach(found.value);
      done := done + found.value;
      i := i + 1;
    }
    assert steps[i..] == [];
    assert done + [] == done;
    return Success(entries);
  }

  /** The printed dates read back as the greeting's dates. */
  lemma RenderRoundTrip(g: Greeting)
    requires IsValid(g.birthday) && IsValid(g.congratulation)
    ensures Parse(Render(g).birthday) == Success(g.birthday)
    ensures Parse(Render(g).congratulationDate) == Success(g.congratulation)
  {
    ParseFormat(g.birthday);
    ParseFormat(g.congratulation);
  }

  /** On Monday 10 June 2024 a birthday on Wednesday 12 June is congratulated
      that day, one on Saturday 15 June on Monday 17 June, and one on 1 January
      not at all. */
  lemma WeekOfTenthJune2024()
    ensures var today := Date(2024, 6, 10);
      var people := [Person("Ann", Some(Date(1990, 6, 12))), Person("Bob", Some(Date(1990, 6, 15))), Person("Eve", Some(Date(1990, 1, 1)))];
      UpcomingBirthdays(people, today) == Success([
        Greeting("Ann", Date(1990, 6, 12), Date(2024, 6, 12)),
        Greeting("Bob", Date(1990, 6, 15), Date(2024, 6, 17))])
  {
    var today := Date(2024, 6, 10);
    var people := [Person("Ann", Some(Date(1990, 6, 12))), Person("Bob", Some(Date(1990, 6, 15))), Person("Eve", Some(Date(1990, 1, 1)))];
    assert Ordinal(today) == 739047;
    assert NextOccurrence(Date(1990, 6, 12), today) == Success(Date(2024, 6, 12));
    assert Weekday(Date(2024, 6, 12)) == 2;
    assert GreetingFor(people[0], today) == Success([Greeting("Ann", Date(1990, 6, 12), Date(2024, 6, 12))]);
    assert NextOccurrence(Date(1990, 6, 15), today) == Success(Date(2024, 6, 15));
    assert Weekday(Date(2024, 6, 15)) == 5;
    assert AddDays(Date(2024, 6, 15), 2) == Date(2024, 6, 17);
    assert GreetingFor(people[1], today) == Success([Greeting("Bob", Date(1990, 6, 15), Date(2024, 6, 17))]);
    assert NextOccurrence(Date(1990, 1, 1), today) == Success(Date(2025, 1, 1));
    assert GreetingFor(people[2], today) == Success([]);
    assert UpcomingBirthdays(people[3..], today) == Success([]);
    assert UpcomingBirthdays(people[2..], today) == Success([]);
    var ann := Greeting("Ann", Date(1990, 6, 12), Date(2024, 6, 12));
    var bob := Greeting("Bob", Date(1990, 6, 15), Date(2024, 6, 17));
    var tail := people[1..];
    assert tail[0] == people[1] && tail[1..] == people[2..];
    assert UpcomingBirthdays(tail, today) == Prepend([bob], Success([]));
    assert [bob] + [] == [bob];
    assert [ann] + [bob] == [ann, bob];
  }
}
