/** The advocates table page: the column-sort controller (`handleSort`), the sorted
    view of the list (`sortedAdvocates`), the React key of each row, and the guard on
    the response body. */
module HomePage {
  import opened Js
  import opened Sorting

  /** The record type the page declares; only `id` is optional. */
  datatype Advocate = Advocate(
    id: Option<string>,
    firstName: string,
    lastName: string,
    city: string,
    degree: string,
    specialties: seq<string>,
    yearsOfExperience: string,
    phoneNumber: string)

  /** `keyof Advocate`: the columns a sort can select. */
  datatype Field = Id | FirstName | LastName | City | Degree | Specialties | YearsOfExperience | PhoneNumber

  datatype Direction = Asc | Desc

  function Flip(d: Direction): Direction {
    if d == Asc then Desc else Asc
  }

  /** `le(a, b)` iff `a.localeCompare(b) <= 0`. */
  type Collation = (string, string) -> bool

  /** The two pieces of sort state the page keeps. */
  class SortState {
    var sortField: Option<Field>
    var sortDirection: Direction

    /** Nothing selected, ascending. */
    constructor ()
      ensures sortField == None && sortDirection == Asc
    {
      sortField := None;
      sortDirection := Asc;
    }

    /** A click on a column header: the selected column flips its direction, any
        other column becomes selected in ascending order. */
    method HandleSort(field: Field)
      modifies this
      ensures old(sortField) == Some(field) ==>
        sortField == old(sortField) && sortDirection == Flip(old(sortDirection))
      ensures old(sortField) != Some(field) ==> sortField == Some(field) && sortDirection == Asc
    {
      if sortField == Some(field) {
        sortDirection := if sortDirection == Asc then Desc else Asc;
      } else {
        sortField := Some(field);
        sortDirection := Asc;
      }
    }
  }

  // ---------------------------------------------------------------------------
  // sortedAdvocates
  // ---------------------------------------------------------------------------

  predicate IsUpper(c: char) {
    'A' <= c <= 'Z'
  }

  /** `toLowerCase`, on ASCII letters. */
  function LowerChar(c: char): char {
    if IsUpper(c) then (c as int + 32) as char else c
  }

  /** `s.toLowerCase()`: every ASCII capital becomes its small letter, everything
      else is kept, and no capital is left. */
  function Lower(s: string): (r: string)
    ensures |r| == |s|
    ensures forall k :: 0 <= k < |s| && IsUpper(s[k]) ==> r[k] == (s[k] as int + 32) as char
    ensures forall k :: 0 <= k < |s| && !IsUpper(s[k]) ==> r[k] == s[k]
    ensures forall k :: 0 <= k < |r| ==> !IsUpper(r[k])
  {
    seq(|s|, k requires 0 <= k < |s| => LowerChar(s[k]))
  }

  /** Lower-casing twice is lower-casing once. */
  lemma LowerIdempotent(s: string)
    ensures Lower(Lower(s)) == Lower(s)
  {
  }

  /** `s` and `t` differ at most in the case of ASCII letters. */
  predicate SameUpToCase(s: string, t: string) {
    |s| == |t| && forall k :: 0 <= k < |s| ==> LowerChar(s[k]) == LowerChar(t[k])
  }

  /** `String(value || "")` of a column, the specialties list joined with ", " first.
      An absent id reads as "". */
  function FieldText(a: Advocate, f: Field): (r: string)
    ensures f == Id && a.id.None? ==> r == ""
    ensures f == Id && a.id.Some? ==> r == a.id.value
    ensures f == FirstName ==> r == a.firstName
    ensures f == LastName ==> r == a.lastName
    ensures f == City ==> r == a.city
    ensures f == Degree ==> r == a.degree
    ensures f == Specialties ==> r == Join(a.specialties, ", ")
    ensures f == YearsOfExperience ==> r == a.yearsOfExperience
    ensures f == PhoneNumber ==> r == a.phoneNumber
  {
    match f
    case Id => (match a.id case Some(s) => s case None => "")
    case FirstName => a.firstName
    case LastName => a.lastName
    case City => a.city
    case Degree => a.degree
    case Specialties => Join(a.specialties, ", ")
    case YearsOfExperience => a.yearsOfExperience
    case PhoneNumber => a.phoneNumber
  }

  /** What the comparator compares: the lower-cased column text. */
  function SortKey(a: Advocate, f: Field): (r: string)
    ensures r == Lower(FieldText(a, f))
    ensures |r| == |FieldText(a, f)|
    ensures forall k :: 0 <= k < |r| ==> !IsUpper(r[k])
  {
    Lower(FieldText(a, f))
  }

  /** Two rows get the same key exactly when their column texts differ at most in
      letter case. */
  lemma SortKeyIgnoresCase(a: Advocate, b: Advocate, f: Field)
    ensures SortKey(a, f) == SortKey(b, f) <==> SameUpToCase(FieldText(a, f), FieldText(b, f))
  {
    var s, t := FieldText(a, f), FieldText(b, f);
    if SameUpToCase(s, t) {
      assert forall k :: 0 <= k < |s| ==> Lower(s)[k] == LowerChar(s[k]) == LowerChar(t[k]) == Lower(t)[k];
    }
    if SortKey(a, f) == SortKey(b, f) {
      assert forall k :: 0 <= k < |s| ==> LowerChar(s[k]) == Lower(s)[k] == Lower(t)[k] == LowerChar(t[k]);
    }
  }

  /** The comparator as a relation: `a` may precede `b`. */
  function Order(f: Field, dir: Direction, le: Collation): (Advocate, Advocate) -> bool {
    (a: Advocate, b: Advocate) =>
      if dir == Asc then le(SortKey(a, f), SortKey(b, f)) else le(SortKey(b, f), SortKey(a, f))
  }

  /** The descending comparator is the ascending one with its arguments swapped. */
  lemma DescendingIsConverse(f: Field, le: Collation, a: Advocate, b: Advocate)
    ensures Order(f, Desc, le)(a, b) == Order(f, Asc, le)(b, a)
  {
  }

  /** The comparison is case-insensitive: replacing a row by one whose column text
      differs only in letter case compares the same on either side. */
  lemma OrderIgnoresCase(f: Field, dir: Direction, le: Collation, a: Advocate, b: Advocate, c: Advocate)
    requires SameUpToCase(FieldText(a, f), FieldText(c, f))
    ensures Order(f, dir, le)(a, b) == Order(f, dir, le)(c, b)
    ensures Order(f, dir, le)(b, a) == Order(f, dir, le)(b, c)
  {
    SortKeyIgnoresCase(a, c, f);
  }

  /** The list as displayed: unchanged with no sort selected, otherwise a sorted copy.
      Either way it is a permutation of the list (which itself is a value, so the copy
      leaves it as it was). */
  function SortedAdvocates(advocates: seq<Advocate>, sortField: Option<Field>, sortDirection: Direction, le: Collation): (r: seq<Advocate>)
    ensures sortField.None? ==> r == advocates
    ensures multiset(r) == multiset(advocates)
  {
    match sortField
    case None => advocates
    case Some(f) =>
      SortByPermutes(Order(f, sortDirection, le), advocates);
      SortBy(Order(f, sortDirection, le), advocates)
  }

  /** A consistent collation gives a consistent comparator in either direction. */
  lemma OrderIsTotalPreorder(f: Field, dir: Direction, le: Collation)
    requires TotalPreorder(le)
    ensures TotalPreorder(Order(f, dir, le))
  {
    var ord := Order(f, dir, le);
    forall a, b ensures ord(a, b) || ord(b, a) {
      assert le(SortKey(a, f), SortKey(b, f)) || le(SortKey(b, f), SortKey(a, f));
    }
    forall a, b, c | Chain(ord, a, b, c) ensures ord(a, c) {
      if dir == Asc {
        assert Chain(le, SortKey(a, f), SortKey(b, f), SortKey(c, f));
      } else {
        assert Chain(le, SortKey(c, f), SortKey(b, f), SortKey(a, f));
      }
    }
  }

  /** Ascending leaves the keys non-decreasing, descending non-increasing. */
  lemma SortedAdvocatesOrdered(advocates: seq<Advocate>, f: Field, dir: Direction, le: Collation)
    requires TotalPreorder(le)
    ensures var r := SortedAdvocates(advocates, Some(f), dir, le);
      forall i, j :: 0 <= i < j < |r| ==>
        (dir == Asc ==> le(Lower(FieldText(r[i], f)), Lower(FieldText(r[j], f))))
        && (dir == Desc ==> le(Lower(FieldText(r[j], f)), Lower(FieldText(r[i], f))))
  {
    OrderIsTotalPreorder(f, dir, le);
    SortBySorted(Order(f, dir, le), advocates);
  }

  /** The specialties column orders rows by their lower-cased ", "-joined lists. */
  lemma SpecialtiesOrderedByJoinedText(advocates: seq<Advocate>, le: Collation)
    requires TotalPreorder(le)
    ensures var r := SortedAdvocates(advocates, Some(Specialties), Asc, le);
      forall i, j :: 0 <= i < j < |r| ==>
        le(Lower(Join(r[i].specialties, ", ")), Lower(Join(r[j].specialties, ", ")))
  {
    SortedAdvocatesOrdered(advocates, Specialties, Asc, le);
  }

  /** Rows whose keys compare equal keep their order from the list. */
  lemma SortedAdvocatesStable(advocates: seq<Advocate>, f: Field, dir: Direction, le: Collation, x: Advocate)
    requires TotalPreorder(le)
    ensures TiesOf(Order(f, dir, le), x, SortedAdvocates(advocates, Some(f), dir, le))
         == TiesOf(Order(f, dir, le), x, advocates)
  {
    OrderIsTotalPreorder(f, dir, le);
    SortByStable(Order(f, dir, le), x, advocates);
  }

  function Reversed<T>(s: seq<T>): (r: seq<T>)
    ensures |r| == |s| && forall k :: 0 <= k < |s| ==> r[k] == s[|s| - 1 - k]
    ensures multiset(r) == multiset(s)
  {
    if s == [] then []
    else
      assert s == [s[0]] + s[1..];
      Reversed(s[1..]) + [s[0]]
  }

  /** Clicking the selected column again shows the list in exactly reversed order,
      provided no two different rows have keys that collate equal. */
  lemma DescendingIsReversedAscending(advocates: seq<Advocate>, f: Field, le: Collation)
    requires TotalPreorder(le)
    requires NoTies(Order(f, Asc, le), multiset(advocates))
    ensures SortedAdvocates(advocates, Some(f), Desc, le)
         == Reversed(SortedAdvocates(advocates, Some(f), Asc, le))
  {
    var desc := Order(f, Desc, le);
    var up := SortBy(Order(f, Asc, le), advocates);
    OrderIsTotalPreorder(f, Asc, le);
    OrderIsTotalPreorder(f, Desc, le);
    SortBySorted(Order(f, Asc, le), advocates);
    SortBySorted(desc, advocates);
    SortByPermutes(Order(f, Asc, le), advocates);
    SortByPermutes(desc, advocates);
    ReversedAscendingIsDescending(up, f, le);
    SameTiesBothWays(multiset(advocates), f, le);
    SortedPermutationsEqual(desc, SortBy(desc, advocates), Reversed(up));
  }

  lemma ReversedAscendingIsDescending(up: seq<Advocate>, f: Field, le: Collation)
    requires Sorted(Order(f, Asc, le), up)
    ensures Sorted(Order(f, Desc, le), Reversed(up))
  {
    var down := Reversed(up);
    forall i, j | 0 <= i < j < |down| ensures Order(f, Desc, le)(down[i], down[j]) {
      assert Order(f, Asc, le)(up[|up| - 1 - j], up[|up| - 1 - i]);
    }
  }

  lemma SameTiesBothWays(m: multiset<Advocate>, f: Field, le: Collation)
    requires NoTies(Order(f, Asc, le), m)
    ensures NoTies(Order(f, Desc, le), m)
  {
    forall u, v | u in m && v in m && Tied(Order(f, Desc, le), u, v) ensures u == v {
      assert Tied(Order(f, Asc, le), u, v);
    }
  }

  // ---------------------------------------------------------------------------
  // Row keys and the response guard
  // ---------------------------------------------------------------------------

  /** The React key of the row at `idx`: its id, else `phoneNumber-lastName-idx`. */
  function RowKey(a: Advocate, idx: nat): (k: string)
    ensures a.id.Some? ==> k == a.id.value
  {
    match a.id
    case Some(s) => s
    case None => a.phoneNumber + "-" + a.lastName + "-" + NatToDecimal(idx)
  }

  /** Two strings ending in "-" and a run of digits agree on that run when they are equal. */
  lemma SameDigitSuffix(p1: string, d1: string, p2: string, d2: string)
    requires p1 + "-" + d1 == p2 + "-" + d2
    requires forall k :: 0 <= k < |d1| ==> IsDigit(d1[k])
    requires forall k :: 0 <= k < |d2| ==> IsDigit(d2[k])
    ensures d1 == d2
  {
    var w := p1 + "-" + d1;
    assert w[|w| - |d1| - 1] == '-';
    assert w[|w| - |d2| - 1] == '-';
    assert forall k :: |w| - |d1| <= k < |w| ==> w[k] == d1[k - (|w| - |d1|)];
    assert forall k :: |w| - |d2| <= k < |w| ==> w[k] == d2[k - (|w| - |d2|)];
    assert |d1| == |d2|;
    assert d1 == w[|w| - |d1|..];
  }

  /** Rows without an id at different positions get different keys. */
  lemma RowKeysDistinct(a: Advocate, b: Advocate, i: nat, j: nat)
    requires a.id.None? && b.id.None?
    requires i != j
    ensures RowKey(a, i) != RowKey(b, j)
  {
    if RowKey(a, i) == RowKey(b, j) {
      SameDigitSuffix(a.phoneNumber + "-" + a.lastName, NatToDecimal(i),
                      b.phoneNumber + "-" + b.lastName, NatToDecimal(j));
      NatToDecimalInjective(i, j);
    }
  }

  /** `Array.isArray(json?.data) ? json.data : []` */
  function ResponseData(json: Value): (r: seq<Value>)
    ensures Prop(json, "data").Arr? ==> r == Prop(json, "data").elems
    ensures !Prop(json, "data").Arr? ==> r == []
  {
    var data := Prop(json, "data");
    if data.Arr? then data.elems else []
  }
}
