/** The advocates endpoint: every store or seed row is normalised into a fixed
    eight-field record, records with identical content are collapsed (first one
    wins), missing ids are filled in, and a failure of the live path replays the
    same pipeline over the static dataset. */
module AdvocatesRoute {
  import opened Js
  import opened Sorting

  /** `JSON.parse`: `None` when it throws. */
  type Parser = string -> Option<Value>

  /** `le(a, b)` iff `a.localeCompare(b, undefined, { sensitivity: "base" }) <= 0`. */
  type Collation = (string, string) -> bool

  /** A normalised record. `id` is whatever the row carried, or `Null`. */
  datatype Advocate = Advocate(
    id: Value,
    firstName: string,
    lastName: string,
    city: string,
    degree: string,
    specialties: seq<string>,
    yearsOfExperience: string,
    phoneNumber: string)

  /** Every field but `id`, in the fixed order the record is built in: the key that
      deduplication serialises. Serialising strings and string lists is injective, so
      two keys are equal exactly when the contents are. */
  datatype Content = Content(
    firstName: string,
    lastName: string,
    city: string,
    degree: string,
    specialties: seq<string>,
    yearsOfExperience: string,
    phoneNumber: string)

  function ContentOf(a: Advocate): Content {
    Content(a.firstName, a.lastName, a.city, a.degree, a.specialties, a.yearsOfExperience, a.phoneNumber)
  }

  /** Guard against a store or dataset that is not an array. */
  function AsArray(input: Value): (r: seq<Value>)
    ensures input.Arr? ==> r == input.elems
    ensures !input.Arr? ==> r == []
  {
    if input.Arr? then input.elems else []
  }

  // ---------------------------------------------------------------------------
  // Scalar fields
  // ---------------------------------------------------------------------------

  /** A name-like field, `String(row.camel ?? row.snake ?? "")`: camelCase wins over
      snake_case when it is present (not merely truthy), and the result is never
      null. */
  function TextField(row: Value, camel: string, snake: string): (r: string)
    ensures !Nullish(Prop(row, camel)) ==> r == ToStr(Prop(row, camel))
    ensures Nullish(Prop(row, camel)) && !Nullish(Prop(row, snake)) ==> r == ToStr(Prop(row, snake))
    ensures Nullish(Prop(row, camel)) && Nullish(Prop(row, snake)) ==> r == ""
  {
    var v := Coalesce(Coalesce(Prop(row, camel), Prop(row, snake)), Str(""));
    ToStr(Coalesce(v, Str("")))
  }

  /** The first present value among three spellings, tried in order; `null` exactly
      when none is present. */
  function FirstPresent(row: Value, k1: string, k2: string, k3: string): (r: Value)
    ensures !Nullish(Prop(row, k1)) ==> r == Prop(row, k1)
    ensures Nullish(Prop(row, k1)) && !Nullish(Prop(row, k2)) ==> r == Prop(row, k2)
    ensures Nullish(Prop(row, k1)) && Nullish(Prop(row, k2)) && !Nullish(Prop(row, k3)) ==> r == Prop(row, k3)
    ensures Nullish(r) <==> (Nullish(Prop(row, k1)) && Nullish(Prop(row, k2)) && Nullish(Prop(row, k3)))
    ensures Nullish(r) ==> r == Null
  {
    Coalesce(Coalesce(Coalesce(Prop(row, k1), Prop(row, k2)), Prop(row, k3)), Null)
  }

  /** `v == null ? "" : String(v)` over the first present spelling: the first
      spelling that is present is printed, and "" when none is. */
  function OptionalField(row: Value, k1: string, k2: string, k3: string): (r: string)
    ensures !Nullish(Prop(row, k1)) ==> r == ToStr(Prop(row, k1))
    ensures Nullish(Prop(row, k1)) && !Nullish(Prop(row, k2)) ==> r == ToStr(Prop(row, k2))
    ensures Nullish(Prop(row, k1)) && Nullish(Prop(row, k2)) && !Nullish(Prop(row, k3)) ==>
      r == ToStr(Prop(row, k3))
    ensures Nullish(Prop(row, k1)) && Nullish(Prop(row, k2)) && Nullish(Prop(row, k3)) ==> r == ""
  {
    var v := FirstPresent(row, k1, k2, k3);
    if Nullish(v) then "" else ToStr(v)
  }

  /** Presence, not truthiness: the field is "" exactly when no spelling is present
      or the first present one prints as ""; a present number is never dropped. */
  lemma OptionalFieldPresence(row: Value, k1: string, k2: string, k3: string)
    ensures OptionalField(row, k1, k2, k3) == "" <==>
      (Nullish(FirstPresent(row, k1, k2, k3)) || ToStr(FirstPresent(row, k1, k2, k3)) == "")
    ensures FirstPresent(row, k1, k2, k3).Num? ==> OptionalField(row, k1, k2, k3) != ""
  {
    if FirstPresent(row, k1, k2, k3).Num? {
      NumberStringIsNonEmpty(FirstPresent(row, k1, k2, k3).n);
    }
  }

  // ---------------------------------------------------------------------------
  // Specialties: decoding
  // ---------------------------------------------------------------------------

  predicate IsDelimiter(c: char) {
    c == ',' || c == '|' || c == ';'
  }

  predicate NoDelimiter(s: string) {
    forall k :: 0 <= k < |s| ==> !IsDelimiter(s[k])
  }

  function Concat(xs: seq<string>): string {
    if xs == [] then "" else xs[0] + Concat(xs[1..])
  }

  function WithoutDelimiters(s: string): string {
    if s == [] then ""
    else (if IsDelimiter(s[0]) then "" else [s[0]]) + WithoutDelimiters(s[1..])
  }

  /** `s.split(/[,|;]+/)`: the pieces between maximal runs of delimiters. There is
      always at least one piece, and none holds a delimiter. */
  function Split(s: string): (r: seq<string>)
    ensures |r| >= 1
    ensures forall k :: 0 <= k < |r| ==> NoDelimiter(r[k])
  {
    if s == [] then [""]
    else
      var rest := Split(s[1..]);
      if IsDelimiter(s[0]) then
        (if |s| > 1 && IsDelimiter(s[1]) then rest else [""] + rest)
      else
        [[s[0]] + rest[0]] + rest[1..]
  }

  /** Put back together, the pieces are `s` without its delimiters: splitting loses
      nothing else. */
  lemma {:induction false} SplitKeepsText(s: string)
    ensures Concat(Split(s)) == WithoutDelimiters(s)
  {
    if s != [] {
      var rest := Split(s[1..]);
      SplitKeepsText(s[1..]);
      assert Concat(rest) == rest[0] + Concat(rest[1..]);
      if IsDelimiter(s[0]) {
        if !(|s| > 1 && IsDelimiter(s[1])) {
          assert Concat([""] + rest) == "" + Concat(rest);
        }
      } else {
        var r := [[s[0]] + rest[0]] + rest[1..];
        assert Concat(r) == ([s[0]] + rest[0]) + Concat(rest[1..]);
      }
    }
  }

  /** `vs.map(String)` */
  function Strings(vs: seq<Value>): (r: seq<string>)
    ensures |r| == |vs| && forall k :: 0 <= k < |vs| ==> r[k] == ToStr(vs[k])
  {
    seq(|vs|, k requires 0 <= k < |vs| => ToStr(vs[k]))
  }

  /** `xs.map(s => s.trim())` */
  function TrimAll(xs: seq<string>): (r: seq<string>)
    ensures |r| == |xs| && forall k :: 0 <= k < |xs| ==> r[k] == Trim(xs[k])
  {
    seq(|xs|, k requires 0 <= k < |xs| => Trim(xs[k]))
  }

  /** The list of specialties before clean-up, from the first shape that applies: an
      array `specialties`, an array `payload`, a string `specialties` that JSON-parses
      (an array is mapped element-wise, any other value wrapped), a string that does
      not (split on delimiters and trimmed); otherwise nothing. */
  function SpecialtySource(row: Value, parse: Parser): (r: seq<string>)
    ensures Prop(row, "specialties").Arr? ==> r == Strings(Prop(row, "specialties").elems)
    ensures !Prop(row, "specialties").Arr? && Prop(row, "payload").Arr? ==>
      r == Strings(Prop(row, "payload").elems)
    ensures !Prop(row, "specialties").Arr? && !Prop(row, "specialties").Str? && !Prop(row, "payload").Arr? ==>
      r == []
  {
    var sp := Prop(row, "specialties");
    var pl := Prop(row, "payload");
    if sp.Arr? then Strings(sp.elems)
    else if pl.Arr? then Strings(pl.elems)
    else if sp.Str? then
      match parse(sp.s)
      case Some(Arr(parsed)) => Strings(parsed)
      case Some(v) => [ToStr(v)]
      case None => TrimAll(Split(sp.s))
    else []
  }

  // ---------------------------------------------------------------------------
  // Specialties: clean-up
  // ---------------------------------------------------------------------------

  /** `xs.filter(Boolean)` on strings: drops the empty ones, keeps the order. */
  function NonEmpty(xs: seq<string>): (r: seq<string>)
    ensures forall k :: 0 <= k < |r| ==> r[k] != "" && r[k] in xs
  {
    if xs == [] then []
    else
      assert xs == [xs[0]] + xs[1..];
      (if xs[0] == "" then [] else [xs[0]]) + NonEmpty(xs[1..])
  }

  /** Every non-empty entry is kept as often as it occurs; only "" is dropped. */
  lemma {:induction false} NonEmptyCounts(xs: seq<string>)
    ensures multiset(NonEmpty(xs)) == multiset(xs)[[] := 0]
  {
    if xs != [] {
      NonEmptyCounts(xs[1..]);
      assert xs == [xs[0]] + xs[1..];
    }
  }

  lemma NonEmptyCons(x: string, t: seq<string>)
    ensures NonEmpty([x] + t) == (if x == "" then [] else [x]) + NonEmpty(t)
  {
    assert ([x] + t)[1..] == t;
  }

  /** Every entry is trimmed and non-empty. */
  predicate CleanEntries(ys: seq<string>) {
    forall k :: 0 <= k < |ys| ==> ys[k] != "" && Trimmed(ys[k])
  }

  /** Trim every entry, drop the empty ones, sort under the collation. The result
      holds trimmed, non-empty entries and is a permutation of the trimmed non-empty
      source entries. */
  function Clean(xs: seq<string>, le: Collation): (r: seq<string>)
    ensures CleanEntries(r)
    ensures multiset(r) == multiset(NonEmpty(TrimAll(xs)))
  {
    TrimmedNonEmpty(xs);
    SortByPermutes(le, NonEmpty(TrimAll(xs)));
    PermutationKeepsCleanEntries(NonEmpty(TrimAll(xs)), SortBy(le, NonEmpty(TrimAll(xs))));
    SortBy(le, NonEmpty(TrimAll(xs)))
  }

  lemma TrimmedNonEmpty(xs: seq<string>)
    ensures CleanEntries(NonEmpty(TrimAll(xs)))
  {
    var t := TrimAll(xs);
    var kept := NonEmpty(t);
    forall k | 0 <= k < |kept| ensures kept[k] != "" && Trimmed(kept[k]) {
      var i :| 0 <= i < |t| && t[i] == kept[k];
    }
  }

  lemma PermutationKeepsCleanEntries(a: seq<string>, b: seq<string>)
    requires multiset(a) == multiset(b) && CleanEntries(a)
    ensures CleanEntries(b)
  {
    forall k | 0 <= k < |b| ensures b[k] != "" && Trimmed(b[k]) {
      assert b[k] in multiset(a);
      var j :| 0 <= j < |a| && a[j] == b[k];
    }
  }

  /** Under a consistent collation the cleaned list is ordered. */
  lemma CleanSorted(xs: seq<string>, le: Collation)
    requires TotalPreorder(le)
    ensures Sorted(le, Clean(xs, le))
  {
    SortBySorted(le, NonEmpty(TrimAll(xs)));
  }

  /** `filter` keeps the order of what it keeps: filtering a concatenation is
      concatenating the filtered parts. */
  lemma {:induction false} NonEmptyAppend(a: seq<string>, b: seq<string>)
    ensures NonEmpty(a + b) == NonEmpty(a) + NonEmpty(b)
  {
    if a == [] {
      assert a + b == b;
    } else {
      var x, t := a[0], a[1..];
      var h := if x == "" then [] else [x];
      assert a + b == [x] + (t + b);
      assert a == [x] + t;
      calc {
        NonEmpty(a + b);
        { NonEmptyCons(x, t + b); }
        h + NonEmpty(t + b);
        { NonEmptyAppend(t, b); }
        h + (NonEmpty(t) + NonEmpty(b));
        (h + NonEmpty(t)) + NonEmpty(b);
        { NonEmptyCons(x, t); }
        NonEmpty(a) + NonEmpty(b);
      }
    }
  }

  /** The sort is stable, so entries that collate equal (say "Therapy" and "therapy"
      under a base-sensitivity collation) stay in their order in the source. */
  lemma CleanStable(xs: seq<string>, le: Collation, x: string)
    requires TotalPreorder(le)
    ensures TiesOf(le, x, Clean(xs, le)) == TiesOf(le, x, NonEmpty(TrimAll(xs)))
  {
    SortByStable(le, x, NonEmpty(TrimAll(xs)));
  }

  // ---------------------------------------------------------------------------
  // normalizeRow
  // ---------------------------------------------------------------------------

  /** One row to one record. Reading a field of a null or undefined row throws a
      TypeError, shown here as `None`; every other row normalises. */
  function NormalizeRow(row: Value, parse: Parser, le: Collation): (r: Option<Advocate>)
    ensures r.None? <==> Nullish(row)
    ensures r.Some? ==> (r.value.id == Null <==> Nullish(Prop(row, "id")))
    ensures r.Some? && !Nullish(Prop(row, "id")) ==> r.value.id == Prop(row, "id")
    ensures r.Some? ==> forall k :: 0 <= k < |r.value.specialties| ==>
      r.value.specialties[k] != "" && Trimmed(r.value.specialties[k])
    ensures r.Some? ==>
      multiset(r.value.specialties) == multiset(NonEmpty(TrimAll(SpecialtySource(row, parse))))
    ensures r.Some? ==> r.value.specialties == Clean(SpecialtySource(row, parse), le)
    ensures r.Some? ==> r.value.firstName == TextField(row, "firstName", "first_name")
    ensures r.Some? ==> r.value.lastName == TextField(row, "lastName", "last_name")
    ensures r.Some? ==> r.value.city == TextField(row, "city", "city")
    ensures r.Some? ==> r.value.degree == TextField(row, "degree", "degree")
    ensures r.Some? ==>
      r.value.yearsOfExperience == OptionalField(row, "yearsOfExperience", "years_of_experience", "years")
    ensures r.Some? ==> r.value.phoneNumber == OptionalField(row, "phoneNumber", "phone_number", "phone")
  {
    if Nullish(row) then None
    else
      Some(Advocate(
        Coalesce(Prop(row, "id"), Null),
        TextField(row, "firstName", "first_name"),
        TextField(row, "lastName", "last_name"),
        TextField(row, "city", "city"),
        TextField(row, "degree", "degree"),
        Clean(SpecialtySource(row, parse), le),
        OptionalField(row, "yearsOfExperience", "years_of_experience", "years"),
        OptionalField(row, "phoneNumber", "phone_number", "phone")))
  }

  /** Under a consistent collation the normalised specialties are ordered. */
  lemma NormalizedSpecialtiesSorted(row: Value, parse: Parser, le: Collation)
    requires TotalPreorder(le)
    requires !Nullish(row)
    ensures Sorted(le, NormalizeRow(row, parse, le).value.specialties)
  {
    CleanSorted(SpecialtySource(row, parse), le);
  }

  /** A years value of 0 under the snake_case key is kept as "0". */
  lemma ZeroYearsKept(m: map<string, Value>, parse: Parser, le: Collation)
    requires "yearsOfExperience" !in m
    requires "years_of_experience" in m && m["years_of_experience"] == Num(0)
    ensures NormalizeRow(Obj(m), parse, le).value.yearsOfExperience == "0"
  {
    NumberStringIsNonEmpty(0);
  }

  // ---------------------------------------------------------------------------
  // Properties of the specialties decoding
  // ---------------------------------------------------------------------------

  /** A string `specialties` (with no array payload) is JSON-parsed: an array is
      mapped element-wise, any other value becomes one entry; when parsing fails the
      string is split and trimmed, and a string with no delimiter gives exactly one
      entry, the trimmed whole string. Any other shape gives nothing. */
  lemma StringSpecialties(row: Value, parse: Parser)
    requires !Prop(row, "specialties").Arr? && !Prop(row, "payload").Arr?
    ensures var sp := Prop(row, "specialties");
      && (sp.Str? && parse(sp.s).Some? && parse(sp.s).value.Arr? ==>
            SpecialtySource(row, parse) == Strings(parse(sp.s).value.elems))
      && (sp.Str? && parse(sp.s).Some? && !parse(sp.s).value.Arr? ==>
            SpecialtySource(row, parse) == [ToStr(parse(sp.s).value)])
      && (sp.Str? && parse(sp.s).None? ==> SpecialtySource(row, parse) == TrimAll(Split(sp.s)))
      && (sp.Str? && parse(sp.s).None? && NoDelimiter(sp.s) ==> SpecialtySource(row, parse) == [Trim(sp.s)])
      && (!sp.Str? ==> SpecialtySource(row, parse) == [])
  {
    var sp := Prop(row, "specialties");
    if sp.Str? && NoDelimiter(sp.s) {
      SplitWithoutDelimiter(sp.s);
    }
  }

  lemma {:induction false} SplitWithoutDelimiter(s: string)
    requires NoDelimiter(s)
    ensures Split(s) == [s]
  {
    if s != [] {
      SplitWithoutDelimiter(s[1..]);
      assert [s[0]] + s[1..] == s;
    }
  }

  /** Splitting a delimiter-free prefix onto `t` extends the first piece of `t`. */
  lemma {:induction false} SplitPrefix(p: string, t: string)
    requires NoDelimiter(p)
    ensures Split(p + t) == [p + Split(t)[0]] + Split(t)[1..]
  {
    var S := Split(t);
    if p == [] {
      assert p + t == t;
      assert p + S[0] == S[0];
      assert [S[0]] + S[1..] == S;
    } else {
      var q := p[1..];
      SplitPrefix(q, t);
      assert (p + t)[1..] == q + t;
      var R := Split(q + t);
      assert R[0] == q + S[0] && R[1..] == S[1..];
      assert Split(p + t) == [[p[0]] + R[0]] + R[1..];
      assert [p[0]] + (q + S[0]) == p + S[0];
    }
  }

  /** A non-empty run of delimiters, such as "|", ";" or ",;". */
  predicate DelimiterRun(d: string) {
    |d| >= 1 && forall k :: 0 <= k < |d| ==> IsDelimiter(d[k])
  }

  /** The entries with `seps[k]` written between entry `k` and entry `k + 1`. */
  function JoinWith(xs: seq<string>, seps: seq<string>): string
    requires |xs| >= 1 && |seps| == |xs| - 1
    decreases |xs|
  {
    if |xs| == 1 then xs[0] else xs[0] + seps[0] + JoinWith(xs[1..], seps[1..])
  }

  /** A whole run of delimiters ends one piece: before text that starts with a
      non-delimiter (or nothing) it contributes exactly one empty piece. */
  lemma {:induction false} SplitRun(d: string, t: string)
    requires DelimiterRun(d)
    requires t == [] || !IsDelimiter(t[0])
    ensures Split(d + t) == [""] + Split(t)
  {
    if |d| == 1 {
      assert (d + t)[1..] == t;
    } else {
      SplitRun(d[1..], t);
      assert (d + t)[1..] == d[1..] + t;
    }
  }

  lemma JoinWithStartsWith(xs: seq<string>, seps: seq<string>)
    requires |xs| >= 1 && |seps| == |xs| - 1 && xs[0] != ""
    ensures JoinWith(xs, seps) != [] && JoinWith(xs, seps)[0] == xs[0][0]
  {
  }

  /** Round trip over every separator the split accepts: non-empty, delimiter-free
      entries separated by any runs of ",", "|" and ";" split back into the entries. */
  lemma {:induction false} SplitJoinWith(xs: seq<string>, seps: seq<string>)
    requires |xs| >= 1 && |seps| == |xs| - 1
    requires forall k :: 0 <= k < |xs| ==> xs[k] != "" && NoDelimiter(xs[k])
    requires forall k :: 0 <= k < |seps| ==> DelimiterRun(seps[k])
    ensures Split(JoinWith(xs, seps)) == xs
  {
    if |xs| == 1 {
      SplitPrefix(xs[0], "");
      assert xs[0] + "" == xs[0];
    } else {
      var tail := JoinWith(xs[1..], seps[1..]);
      SplitJoinWith(xs[1..], seps[1..]);
      JoinWithStartsWith(xs[1..], seps[1..]);
      SplitPieceRun(xs[0], seps[0], tail);
      assert xs == [xs[0]] + xs[1..];
    }
  }

  /** An entry and a delimiter run in front of more text make one piece. */
  lemma SplitPieceRun(x: string, d: string, t: string)
    requires NoDelimiter(x) && DelimiterRun(d)
    requires t == [] || !IsDelimiter(t[0])
    ensures Split(x + d + t) == [x] + Split(t)
  {
    SplitRun(d, t);
    assert x + d + t == x + (d + t);
    SplitPrefix(x, d + t);
    assert x + "" == x;
  }

  /** `n` copies of `x`. */
  function Repeat(x: string, n: nat): (r: seq<string>)
    ensures |r| == n && forall k :: 0 <= k < n ==> r[k] == x
  {
    if n == 0 then [] else [x] + Repeat(x, n - 1)
  }

  /** `xs.join(sep)` is the entries with `sep` between every two. */
  lemma {:induction false} JoinIsJoinWith(xs: seq<string>, sep: string)
    requires |xs| >= 1
    ensures Join(xs, sep) == JoinWith(xs, Repeat(sep, |xs| - 1))
  {
    if |xs| > 1 {
      JoinIsJoinWith(xs[1..], sep);
    }
  }

  /** Round trip: joining delimiter-free, non-empty entries with "," and splitting
      gives the entries back. */
  lemma SplitJoin(xs: seq<string>)
    requires |xs| >= 1
    requires forall k :: 0 <= k < |xs| ==> xs[k] != "" && NoDelimiter(xs[k])
    ensures Split(Join(xs, ",")) == xs
  {
    var seps := Repeat(",", |xs| - 1);
    assert DelimiterRun(",");
    JoinIsJoinWith(xs, ",");
    SplitJoinWith(xs, seps);
  }

  function Strs(xs: seq<string>): (r: seq<Value>)
    ensures |r| == |xs| && forall k :: 0 <= k < |xs| ==> r[k] == Str(xs[k])
  {
    seq(|xs|, k requires 0 <= k < |xs| => Str(xs[k]))
  }

  lemma TrimAllTwice(xs: seq<string>)
    ensures TrimAll(TrimAll(xs)) == TrimAll(xs)
  {
    forall k | 0 <= k < |xs| ensures TrimAll(TrimAll(xs))[k] == TrimAll(xs)[k] {
      TrimIdempotent(xs[k]);
    }
  }

  /** Only `specialties` differs between the two rows, and it cleans up the same. */
  lemma SameSpecialtiesSameRecord(m: map<string, Value>, v1: Value, v2: Value, parse: Parser, le: Collation)
    requires Clean(SpecialtySource(Obj(m["specialties" := v1]), parse), le)
          == Clean(SpecialtySource(Obj(m["specialties" := v2]), parse), le)
    ensures NormalizeRow(Obj(m["specialties" := v1]), parse, le) == NormalizeRow(Obj(m["specialties" := v2]), parse, le)
  {
    PropOtherKey(m, v1, v2, "id");
    TextFieldAgrees(m, v1, v2, "firstName", "first_name");
    TextFieldAgrees(m, v1, v2, "lastName", "last_name");
    TextFieldAgrees(m, v1, v2, "city", "city");
    TextFieldAgrees(m, v1, v2, "degree", "degree");
    OptionalFieldAgrees(m, v1, v2, "yearsOfExperience", "years_of_experience", "years");
    OptionalFieldAgrees(m, v1, v2, "phoneNumber", "phone_number", "phone");
  }

  lemma PropOtherKey(m: map<string, Value>, v1: Value, v2: Value, k: string)
    requires k != "specialties"
    ensures Prop(Obj(m["specialties" := v1]), k) == Prop(Obj(m["specialties" := v2]), k)
  {
  }

  lemma TextFieldAgrees(m: map<string, Value>, v1: Value, v2: Value, camel: string, snake: string)
    requires camel != "specialties" && snake != "specialties"
    ensures TextField(Obj(m["specialties" := v1]), camel, snake) == TextField(Obj(m["specialties" := v2]), camel, snake)
  {
    PropOtherKey(m, v1, v2, camel);
    PropOtherKey(m, v1, v2, snake);
  }

  lemma OptionalFieldAgrees(m: map<string, Value>, v1: Value, v2: Value, k1: string, k2: string, k3: string)
    requires k1 != "specialties" && k2 != "specialties" && k3 != "specialties"
    ensures OptionalField(Obj(m["specialties" := v1]), k1, k2, k3) == OptionalField(Obj(m["specialties" := v2]), k1, k2, k3)
  {
    PropOtherKey(m, v1, v2, k1);
    PropOtherKey(m, v1, v2, k2);
    PropOtherKey(m, v1, v2, k3);
  }

  /** The three encodings of one list of specialties normalise to the same record:
      a native array, a JSON string that parses to that array, and the entries joined
      with "," (which does not parse). */
  lemma SpecialtyEncodingsAgree(m: map<string, Value>, xs: seq<string>, json: string, parse: Parser, le: Collation)
    requires "payload" !in m
    requires |xs| >= 1
    requires forall k :: 0 <= k < |xs| ==> xs[k] != "" && NoDelimiter(xs[k])
    requires parse(json) == Some(Arr(Strs(xs)))
    requires parse(Join(xs, ",")) == None
    ensures NormalizeRow(Obj(m["specialties" := Str(json)]), parse, le)
         == NormalizeRow(Obj(m["specialties" := Arr(Strs(xs))]), parse, le)
    ensures NormalizeRow(Obj(m["specialties" := Str(Join(xs, ","))]), parse, le)
         == NormalizeRow(Obj(m["specialties" := Arr(Strs(xs))]), parse, le)
  {
    var native := Arr(Strs(xs));
    SourceOfNative(m, xs, parse);
    SourceOfJson(m, xs, json, parse);
    SameSpecialtiesSameRecord(m, Str(json), native, parse, le);
    SourceOfDelimited(m, xs, parse);
    TrimAllTwice(xs);
    SameSpecialtiesSameRecord(m, Str(Join(xs, ",")), native, parse, le);
  }

  lemma UnparsedString(row: Value, s: string, parse: Parser)
    requires Prop(row, "specialties") == Str(s) && !Prop(row, "payload").Arr?
    requires parse(s) == None
    ensures SpecialtySource(row, parse) == TrimAll(Split(s))
  {
  }

  lemma SourceOfNative(m: map<string, Value>, xs: seq<string>, parse: Parser)
    ensures SpecialtySource(Obj(m["specialties" := Arr(Strs(xs))]), parse) == xs
  {
    assert Prop(Obj(m["specialties" := Arr(Strs(xs))]), "specialties") == Arr(Strs(xs));
    assert Strings(Strs(xs)) == xs;
  }

  lemma SourceOfJson(m: map<string, Value>, xs: seq<string>, json: string, parse: Parser)
    requires "payload" !in m
    requires parse(json) == Some(Arr(Strs(xs)))
    ensures SpecialtySource(Obj(m["specialties" := Str(json)]), parse) == xs
  {
    assert Prop(Obj(m["specialties" := Str(json)]), "specialties") == Str(json);
    assert Prop(Obj(m["specialties" := Str(json)]), "payload") == Undefined;
    assert Strings(Strs(xs)) == xs;
  }

  lemma SourceOfDelimited(m: map<string, Value>, xs: seq<string>, parse: Parser)
    requires "payload" !in m
    requires |xs| >= 1
    requires forall k :: 0 <= k < |xs| ==> xs[k] != "" && NoDelimiter(xs[k])
    requires parse(Join(xs, ",")) == None
    ensures SpecialtySource(Obj(m["specialties" := Str(Join(xs, ","))]), parse) == TrimAll(xs)
  {
    SourceOfUnparsed(m, Join(xs, ","), parse);
    SplitJoin(xs);
  }

  lemma SourceOfUnparsed(m: map<string, Value>, s: string, parse: Parser)
    requires "payload" !in m
    requires parse(s) == None
    ensures SpecialtySource(Obj(m["specialties" := Str(s)]), parse) == TrimAll(Split(s))
  {
    var row := Obj(m["specialties" := Str(s)]);
    assert Prop(row, "specialties") == Str(s);
    assert Prop(row, "payload") == Undefined;
    UnparsedString(row, s, parse);
  }

  /** Permuting the entries of a native array changes nothing when no two distinct
      cleaned entries collate equal. */
  lemma SpecialtyOrderIrrelevant(xs: seq<string>, ys: seq<string>, le: Collation)
    requires TotalPreorder(le)
    requires multiset(NonEmpty(TrimAll(xs))) == multiset(NonEmpty(TrimAll(ys)))
    requires NoTies(le, multiset(NonEmpty(TrimAll(xs))))
    ensures Clean(xs, le) == Clean(ys, le)
  {
    SortByOrderIrrelevant(le, NonEmpty(TrimAll(xs)), NonEmpty(TrimAll(ys)));
  }

  // ---------------------------------------------------------------------------
  // dedupe
  // ---------------------------------------------------------------------------

  function ContentSet(rows: seq<Advocate>): set<Content> {
    set r | r in rows :: ContentOf(r)
  }

  /** Keep a record unless an earlier one has the same content. */
  function Dedupe(rows: seq<Advocate>): (r: seq<Advocate>)
    ensures |r| <= |rows|
  {
    if rows == [] then []
    else
      var init, last := rows[..|rows| - 1], rows[|rows| - 1];
      if ContentOf(last) in ContentSet(init) then Dedupe(init) else Dedupe(init) + [last]
  }

  /** The loop of `dedupe`: a set of seen keys, and the kept records in order. */
  method DedupeRows(rows: seq<Advocate>) returns (out: seq<Advocate>)
    ensures out == Dedupe(rows)
  {
    var seen: set<Content> := {};
    out := [];
    for i := 0 to |rows|
      invariant seen == ContentSet(rows[..i])
      invariant out == Dedupe(rows[..i])
    {
      var r := rows[i];
      var key := ContentOf(r);
      DedupeStep(rows, i);
      if key in seen {
        continue;
      }
      seen := seen + {key};
      out := out + [r];
    }
    assert rows[..|rows|] == rows;
  }

  /** One more record: its content joins the seen set, and the record is kept
      unless its content was seen. */
  lemma DedupeStep(rows: seq<Advocate>, i: int)
    requires 0 <= i < |rows|
    ensures ContentSet(rows[..i + 1]) == ContentSet(rows[..i]) + {ContentOf(rows[i])}
    ensures Dedupe(rows[..i + 1]) ==
      if ContentOf(rows[i]) in ContentSet(rows[..i]) then Dedupe(rows[..i]) else Dedupe(rows[..i]) + [rows[i]]
  {
    var p := rows[..i + 1];
    assert p[..i] == rows[..i] && p[i] == rows[i];
    assert p == rows[..i] + [rows[i]];
  }

  /** No earlier record has the content of `rows[i]`. */
  ghost predicate FirstOccurrence(rows: seq<Advocate>, i: int) {
    0 <= i < |rows| && forall j :: 0 <= j < i ==> ContentOf(rows[j]) != ContentOf(rows[i])
  }

  /** The positions of first occurrences, in increasing order. */
  ghost function FirstIndices(rows: seq<Advocate>): seq<int> {
    if rows == [] then []
    else
      FirstIndices(rows[..|rows| - 1])
      + (if FirstOccurrence(rows, |rows| - 1) then [|rows| - 1] else [])
  }

  lemma {:induction false} FirstIndicesExact(rows: seq<Advocate>)
    ensures forall k :: 0 <= k < |FirstIndices(rows)| ==> FirstOccurrence(rows, FirstIndices(rows)[k])
    ensures forall i :: FirstOccurrence(rows, i) ==> i in FirstIndices(rows)
    ensures forall k, l :: 0 <= k < l < |FirstIndices(rows)| ==> FirstIndices(rows)[k] < FirstIndices(rows)[l]
  {
    if rows != [] {
      var init := rows[..|rows| - 1];
      FirstIndicesExact(init);
      forall i | 0 <= i < |init| ensures FirstOccurrence(rows, i) == FirstOccurrence(init, i) {
      }
      forall k | 0 <= k < |FirstIndices(init)| ensures FirstIndices(init)[k] < |init| {
      }
    }
  }

  lemma ContentSetMembership(rows: seq<Advocate>, c: Content)
    ensures c in ContentSet(rows) <==> exists j :: 0 <= j < |rows| && ContentOf(rows[j]) == c
  {
    if c in ContentSet(rows) {
      var r :| r in rows && ContentOf(r) == c;
      var j :| 0 <= j < |rows| && rows[j] == r;
    }
  }

  /** `dedupe` keeps exactly the first occurrence of every content, in input order:
      its output is the subsequence of its input at those positions. */
  lemma {:induction false} DedupeKeepsFirstOccurrences(rows: seq<Advocate>)
    ensures |Dedupe(rows)| == |FirstIndices(rows)|
    ensures forall k :: 0 <= k < |Dedupe(rows)| ==>
      0 <= FirstIndices(rows)[k] < |rows| && Dedupe(rows)[k] == rows[FirstIndices(rows)[k]]
  {
    if rows != [] {
      var init, last := rows[..|rows| - 1], rows[|rows| - 1];
      DedupeKeepsFirstOccurrences(init);
      FirstIndicesExact(init);
      ContentSetMembership(init, ContentOf(last));
      assert ContentOf(last) in ContentSet(init) <==> !FirstOccurrence(rows, |rows| - 1);
      forall k | 0 <= k < |Dedupe(init)| ensures FirstIndices(init)[k] < |init| {
        assert FirstOccurrence(init, FirstIndices(init)[k]);
      }
    }
  }

  /** Every input content has a content-equal output, and every output is an input. */
  lemma {:induction false} DedupeCoversContents(rows: seq<Advocate>)
    ensures ContentSet(Dedupe(rows)) == ContentSet(rows)
    ensures forall r :: r in Dedupe(rows) ==> r in rows
  {
    if rows != [] {
      var init, last := rows[..|rows| - 1], rows[|rows| - 1];
      DedupeCoversContents(init);
      assert rows == init + [last];
      ContentSetAppend(init, last);
      if ContentOf(last) !in ContentSet(init) {
        ContentSetAppend(Dedupe(init), last);
      }
    }
  }

  lemma ContentSetAppend(rows: seq<Advocate>, r: Advocate)
    ensures ContentSet(rows + [r]) == ContentSet(rows) + {ContentOf(r)}
  {
    forall x | x in rows + [r] ensures x in rows || x == r {
    }
  }

  /** No two outputs have the same content. */
  lemma {:induction false} DedupeDistinct(rows: seq<Advocate>)
    ensures forall k, l :: 0 <= k < l < |Dedupe(rows)| ==> ContentOf(Dedupe(rows)[k]) != ContentOf(Dedupe(rows)[l])
  {
    if rows != [] {
      var init, last := rows[..|rows| - 1], rows[|rows| - 1];
      DedupeDistinct(init);
      DedupeCoversContents(init);
      if ContentOf(last) !in ContentSet(init) {
        var d := Dedupe(rows);
        forall k | 0 <= k < |d| - 1 ensures ContentOf(d[k]) != ContentOf(last) {
          assert d[k] in Dedupe(init);
        }
      }
    }
  }

  /** Input with pairwise distinct contents passes through unchanged. */
  lemma {:induction false} DedupeOfDistinct(rows: seq<Advocate>)
    requires forall k, l :: 0 <= k < l < |rows| ==> ContentOf(rows[k]) != ContentOf(rows[l])
    ensures Dedupe(rows) == rows
  {
    if rows != [] {
      var init, last := rows[..|rows| - 1], rows[|rows| - 1];
      DedupeOfDistinct(init);
      ContentSetMembership(init, ContentOf(last));
      assert rows == init + [last];
    }
  }

  /** Deduplicating twice is deduplicating once. */
  lemma DedupeIdempotent(rows: seq<Advocate>)
    ensures Dedupe(Dedupe(rows)) == Dedupe(rows)
  {
    DedupeDistinct(rows);
    DedupeOfDistinct(Dedupe(rows));
  }

  /** Two records that differ only in `id` collapse to the first. */
  lemma DifferentIdsCollapse(a: Advocate, b: Advocate)
    requires ContentOf(a) == ContentOf(b)
    ensures Dedupe([a, b]) == [a]
  {
    assert [a, b][..1] == [a];
    assert [a][..0] == [];
  }

  // ---------------------------------------------------------------------------
  // GET
  // ---------------------------------------------------------------------------

  /** `r.id ?? crypto?.randomUUID?.() ?? `${r.phoneNumber}-${r.lastName}``, where
      `minted` is the identifier the generator returns (`None` when `crypto` exists
      but `crypto.randomUUID` is null or undefined). */
  function FillId(r: Advocate, minted: Option<string>): (f: Advocate)
    ensures !Nullish(f.id) && ContentOf(f) == ContentOf(r)
    ensures !Nullish(r.id) ==> f.id == r.id
    ensures minted.None? && Nullish(r.id) ==> f.id == Str(r.phoneNumber + "-" + r.lastName)
  {
    var fallback := match minted
      case Some(u) => Str(u)
      case None => Str(r.phoneNumber + "-" + r.lastName);
    r.(id := Coalesce(r.id, fallback))
  }

  /** Gives every record an id. `mint(i)` is the identifier generated for the i-th
      record; `None` models a runtime whose `crypto` has no `randomUUID` (null or
      undefined there). */
  function FillIds(rows: seq<Advocate>, mint: Option<nat -> string>): (r: seq<Advocate>)
    ensures |r| == |rows|
    ensures forall i :: 0 <= i < |r| ==> !Nullish(r[i].id) && ContentOf(r[i]) == ContentOf(rows[i])
    ensures forall i :: 0 <= i < |r| && !Nullish(rows[i].id) ==> r[i].id == rows[i].id
    ensures mint.None? ==> forall i :: 0 <= i < |r| && Nullish(rows[i].id) ==>
      r[i].id == Str(rows[i].phoneNumber + "-" + rows[i].lastName)
  {
    var r := seq(|rows|, i requires 0 <= i < |rows| => FillId(rows[i], Minted(mint, i)));
    assert forall i :: 0 <= i < |rows| ==> r[i] == FillId(rows[i], Minted(mint, i));
    r
  }

  function Minted(mint: Option<nat -> string>, i: nat): Option<string> {
    if mint.Some? then Some(mint.value(i)) else None
  }

  /** `rows.map(normalizeRow)`: throws (None) when one of the rows does. */
  function NormalizeAll(rows: seq<Value>, parse: Parser, le: Collation): (r: Option<seq<Advocate>>)
    ensures r.Some? <==> forall k :: 0 <= k < |rows| ==> !Nullish(rows[k])
    ensures r.Some? ==> |r.value| == |rows|
    ensures r.Some? ==> forall k :: 0 <= k < |rows| ==> Some(r.value[k]) == NormalizeRow(rows[k], parse, le)
  {
    if forall k :: 0 <= k < |rows| ==> !Nullish(rows[k]) then
      Some(seq(|rows|, k requires 0 <= k < |rows| => NormalizeRow(rows[k], parse, le).value))
    else
      None
  }

  /** asArray → normalise → dedupe → fill ids. */
  function Pipeline(raw: Value, parse: Parser, le: Collation, mint: Option<nat -> string>): (r: Option<seq<Advocate>>)
    ensures r.Some? <==> forall k :: 0 <= k < |AsArray(raw)| ==> !Nullish(AsArray(raw)[k])
    ensures r.Some? ==> |r.value| <= |AsArray(raw)|
    ensures r.Some? ==> forall k :: 0 <= k < |r.value| ==> !Nullish(r.value[k].id)
    ensures r.Some? ==> forall k, l :: 0 <= k < l < |r.value| ==> ContentOf(r.value[k]) != ContentOf(r.value[l])
  {
    match NormalizeAll(AsArray(raw), parse, le)
    case None => None
    case Some(normalized) =>
      DedupeDistinct(normalized);
      Some(FillIds(Dedupe(normalized), mint))
  }

  /** The endpoint. `fetched` is the store's answer (`None`: the query threw). Any
      throw on the live path replays the same pipeline over the static `dataset`; a
      throw there escapes the handler (`None`). */
  function Get(fetched: Option<Value>, dataset: Value, parse: Parser, le: Collation, mint: Option<nat -> string>): (r: Option<seq<Advocate>>)
    ensures fetched.None? ==> r == Pipeline(dataset, parse, le, mint)
    ensures fetched.Some? && Pipeline(fetched.value, parse, le, mint).Some? ==> r == Pipeline(fetched.value, parse, le, mint)
    ensures fetched.Some? && Pipeline(fetched.value, parse, le, mint).None? ==> r == Pipeline(dataset, parse, le, mint)
    ensures r.Some? ==> forall k :: 0 <= k < |r.value| ==> !Nullish(r.value[k].id)
  {
    match fetched
    case Some(raw) =>
      var live := Pipeline(raw, parse, le, mint);
      if live.Some? then live else Pipeline(dataset, parse, le, mint)
    case None => Pipeline(dataset, parse, le, mint)
  }

  /** With the store down, the response is the deduplicated static dataset: one record
      per distinct content, ids present ones kept and missing ones filled. */
  lemma FallbackServesDedupedDataset(dataset: Value, parse: Parser, le: Collation, mint: Option<nat -> string>)
    requires forall k :: 0 <= k < |AsArray(dataset)| ==> !Nullish(AsArray(dataset)[k])
    ensures var normalized := NormalizeAll(AsArray(dataset), parse, le).value;
      var r := Get(None, dataset, parse, le, mint);
      && r.Some?
      && |r.value| == |Dedupe(normalized)|
      && (forall k :: 0 <= k < |r.value| ==> ContentOf(r.value[k]) == ContentOf(Dedupe(normalized)[k]))
      && (forall k :: 0 <= k < |r.value| && !Nullish(Dedupe(normalized)[k].id) ==>
            r.value[k].id == Dedupe(normalized)[k].id)
      && ContentSet(Dedupe(normalized)) == ContentSet(normalized)
  {
    var normalized := NormalizeAll(AsArray(dataset), parse, le).value;
    DedupeCoversContents(normalized);
  }
}
