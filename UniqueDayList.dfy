/** The list of days kept unique under `isSameDay`: additions and replacements
    are checked against the identity predicate, while `setDay` locates its
    target by full equality. Every operation either fails and leaves the list as
    it was, or updates it in place. */
module UniqueDays {
  import opened Identity

  datatype DayError = DuplicateDay | DayNotFound

  /** How a call ended: normally, or with one of the two exceptions. */
  datatype Outcome = Done | Fail(error: DayError)

  /** What an operation does to a list: the new list, or the error it raises. */
  datatype Update<T> = Updated(list: seq<T>) | Rejected(error: DayError)

  /** `outcome` and `after` are what `u` says a call starting from `before` ends with. */
  ghost predicate Applied<T>(u: Update<T>, before: seq<T>, after: seq<T>, outcome: Outcome)
  {
    match u
    case Updated(l) => outcome == Done && after == l
    case Rejected(e) => outcome == Fail(e) && after == before
  }

  /** `add`: rejected when an identity-equal day is present, else appended. */
  function AddTo<Day>(same: (Day, Day) -> bool, s: seq<Day>, toAdd: Day): (r: Update<Day>)
    ensures r.Rejected? <==> exists i :: 0 <= i < |s| && same(toAdd, s[i])
    ensures r.Rejected? ==> r.error == DuplicateDay
    ensures r.Updated? ==> |r.list| == |s| + 1 && r.list[..|s|] == s && r.list[|s|] == toAdd
  {
    if AnyMatch(same, s, toAdd) then Rejected(DuplicateDay) else Updated(s + [toAdd])
  }

  /** `setDay`: the first element equal to `target` is replaced by `edited`,
      unless `target` is absent or `edited` would duplicate another day. */
  function SetDayIn<Day(==)>(same: (Day, Day) -> bool, s: seq<Day>, target: Day, edited: Day): (r: Update<Day>)
    ensures r == Rejected(DayNotFound) <==> target !in s
    ensures r == Rejected(DuplicateDay) <==>
      target in s && !same(target, edited) && exists i :: 0 <= i < |s| && same(edited, s[i])
    ensures r.Updated? ==> (|r.list| == |s| &&
      forall j :: 0 <= j < |s| ==>
        r.list[j] == if s[j] == target && target !in s[..j] then edited else s[j])
  {
    var index := IndexOf(s, target);
    if index == -1 then Rejected(DayNotFound)
    else if !same(target, edited) && AnyMatch(same, s, edited) then Rejected(DuplicateDay)
    else
      assert forall j :: 0 <= j < |s| ==> (target in s[..j] <==> j > index);
      Updated(s[index := edited])
  }

  /** `setDays`: the list becomes `days`, unless two of them are identity-equal. */
  function SetDaysTo<Day>(same: (Day, Day) -> bool, days: seq<Day>): (r: Update<Day>)
    ensures r.Rejected? <==> exists i, j :: 0 <= i < j < |days| && same(days[i], days[j])
    ensures r.Rejected? ==> r.error == DuplicateDay
    ensures r.Updated? ==> r.list == days
  {
    if Unique(same, days) then Updated(days) else Rejected(DuplicateDay)
  }

  /** Checks every pair i < j of `days`, stopping at the first identity clash. */
  method DaysAreUnique<Day>(same: (Day, Day) -> bool, days: seq<Day>) returns (unique: bool)
    ensures unique <==> Unique(same, days)
  {
    var i := 0;
    while i < |days| - 1
      invariant 0 <= i <= |days|
      invariant forall a, b :: 0 <= a < i && a < b < |days| ==> !same(days[a], days[b])
    {
      var j := i + 1;
      while j < |days|
        invariant i + 1 <= j <= |days|
        invariant forall b :: i < b < j ==> !same(days[i], days[b])
      {
        if same(days[i], days[j]) {
          return false;
        }
        j := j + 1;
      }
      i := i + 1;
    }
    return true;
  }

  class UniqueDayList<Day(==, !new)> {
    var internalList: seq<Day>
    /** `isSameDay(x, y)` stands for `x.isSameDay(y)`. */
    const isSameDay: (Day, Day) -> bool

    constructor (isSameDay: (Day, Day) -> bool)
      ensures internalList == [] && this.isSameDay == isSameDay
    {
      internalList := [];
      this.isSameDay := isSameDay;
    }

    /** Some day in the list has the identity of `toCheck`. */
    function Contains(toCheck: Day): (b: bool)
      reads this
      ensures b <==> exists i :: 0 <= i < |internalList| && isSameDay(toCheck, internalList[i])
    {
      AnyMatch(isSameDay, internalList, toCheck)
    }

    method Add(toAdd: Day) returns (outcome: Outcome)
      modifies this
      ensures Applied(AddTo(isSameDay, old(internalList), toAdd), old(internalList), internalList, outcome)
      ensures Symmetric(isSameDay) && Unique(isSameDay, old(internalList)) ==> Unique(isSameDay, internalList)
    {
      if Symmetric(isSameDay) && Unique(isSameDay, internalList) && AddTo(isSameDay, internalList, toAdd).Updated? {
        AddKeepsUnique(isSameDay, internalList, toAdd);
      }
      if Contains(toAdd) {
        return Fail(DuplicateDay);
      }
      internalList := internalList + [toAdd];
      outcome := Done;
    }

    method SetDay(target: Day, editedDay: Day) returns (outcome: Outcome)
      modifies this
      ensures Applied(SetDayIn(isSameDay, old(internalList), target, editedDay), old(internalList), internalList, outcome)
      ensures Symmetric(isSameDay) && Transitive(isSameDay) && Unique(isSameDay, old(internalList)) ==>
        Unique(isSameDay, internalList)
    {
      if Symmetric(isSameDay) && Transitive(isSameDay) && Unique(isSameDay, internalList) &&
         SetDayIn(isSameDay, internalList, target, editedDay).Updated? {
        SetDayKeepsUnique(isSameDay, internalList, target, editedDay);
      }
      var index := IndexOf(internalList, target);
      if index == -1 {
        return Fail(DayNotFound);
      }
      if !isSameDay(target, editedDay) && Contains(editedDay) {
        return Fail(DuplicateDay);
      }
      internalList := internalList[index := editedDay];
      outcome := Done;
    }

    method SetDays(days: seq<Day>) returns (outcome: Outcome)
      modifies this
      ensures Applied(SetDaysTo(isSameDay, days), old(internalList), internalList, outcome)
      ensures outcome == Done ==> Unique(isSameDay, internalList)
      ensures Unique(isSameDay, old(internalList)) ==> Unique(isSameDay, internalList)
    {
      var unique := DaysAreUnique(isSameDay, days);
      if !unique {
        return Fail(DuplicateDay);
      }
      internalList := days;
      outcome := Done;
    }

    /** Two lists are equal when they hold the same days in the same order. */
    function Equals(other: UniqueDayList<Day>): (b: bool)
      reads this, other
      ensures b <==> internalList == other.internalList
    {
      other == this || internalList == other.internalList
    }
  }

  // ---------------------------------------------------------------------------
  // The uniqueness invariant

  /** A successful `add` keeps the list unique, given a symmetric identity. */
  lemma AddKeepsUnique<Day(!new)>(same: (Day, Day) -> bool, s: seq<Day>, toAdd: Day)
    requires Symmetric(same) && Unique(same, s)
    requires AddTo(same, s, toAdd).Updated?
    ensures Unique(same, AddTo(same, s, toAdd).list)
  {
    var l := AddTo(same, s, toAdd).list;
    forall i, j | 0 <= i < j < |l| ensures !same(l[i], l[j]) {
      if j == |s| {
        assert l[i] == s[i] && !same(toAdd, s[i]);
      } else {
        assert l[i] == s[i] && l[j] == s[j];
      }
    }
  }

  /** A successful `setDay` keeps the list unique, given a symmetric and
      transitive identity. */
  lemma SetDayKeepsUnique<Day(!new)>(same: (Day, Day) -> bool, s: seq<Day>, target: Day, edited: Day)
    requires Symmetric(same) && Transitive(same) && Unique(same, s)
    requires SetDayIn(same, s, target, edited).Updated?
    ensures Unique(same, SetDayIn(same, s, target, edited).list)
  {
    var l := SetDayIn(same, s, target, edited).list;
    var k := IndexOf(s, target);
    assert l == s[k := edited];
    // an identity clash of `edited` with another position would give one in `s`
    forall m | 0 <= m < |s| && m != k ensures !same(edited, s[m]) && !same(s[m], edited) {
      assert !same(s[k], s[m]) && !same(s[m], s[k]);
    }
    forall i, j | 0 <= i < j < |l| ensures !same(l[i], l[j]) {
      if i != k && j != k {
        assert l[i] == s[i] && l[j] == s[j];
      }
    }
  }

  /** A successful `setDays` leaves a unique list. */
  lemma SetDaysKeepsUnique<Day>(same: (Day, Day) -> bool, days: seq<Day>)
    requires SetDaysTo(same, days).Updated?
    ensures Unique(same, SetDaysTo(same, days).list)
  {
  }

  /** Empty and one-element lists are always accepted by `setDays`. */
  lemma SmallListsAccepted<Day>(same: (Day, Day) -> bool, days: seq<Day>)
    requires |days| <= 1
    ensures SetDaysTo(same, days) == Updated(days)
  {
  }
}
