/** The home screen's `applyFilters`: the roster narrowed by four independent criteria. */
module Filter {
  import opened People
  import opened Strings

  /** What the user typed into the three text fields and the "Available Only" switch.
      An empty text field places no constraint. */
  datatype Criteria = Criteria(
    nameQuery: string,
    domainQuery: string,
    genderQuery: string,
    availableOnly: bool)

  /** The criteria of a freshly opened home screen: nothing typed, switch off. */
  const NoCriteria := Criteria("", "", "", false)

  /** The callback handed to `Array.prototype.filter`. */
  predicate Matches(p: Person, c: Criteria)
  {
    && (c.nameQuery == "" || Includes(FullName(p), c.nameQuery))
    && (c.domainQuery == "" || p.domain == c.domainQuery)
    && (c.genderQuery == "" || p.gender == c.genderQuery)
    && (!c.availableOnly || p.available)
  }

  /** A record passes exactly when the name query occurs somewhere in "first last", the
      domain and gender queries are empty or equal to the record's fields, and the record
      is available unless the switch is off. */
  lemma MatchesIff(p: Person, c: Criteria)
    ensures Matches(p, c) <==>
      && (c.nameQuery == "" || exists i :: OccursAt(p.firstName + " " + p.lastName, c.nameQuery, i))
      && (c.domainQuery == "" || p.domain == c.domainQuery)
      && (c.genderQuery == "" || p.gender == c.genderQuery)
      && (c.availableOnly ==> p.available)
  {
    IncludesIffOccurs(FullName(p), c.nameQuery);
  }

  /** `userdata.filter(...)`: the matching records, in roster order. */
  function Apply(roster: seq<Person>, c: Criteria): (r: seq<Person>)
    ensures |r| <= |roster|
    ensures forall p :: p in r <==> p in roster && Matches(p, c)
    ensures forall k :: 0 <= k < |r| ==> Matches(r[k], c)
  {
    if |roster| == 0 then []
    else
      assert roster == [roster[0]] + roster[1..];
      if Matches(roster[0], c) then [roster[0]] + Apply(roster[1..], c)
      else Apply(roster[1..], c)
  }

  /** `a` can be obtained from `b` by deleting elements, without reordering the rest. */
  predicate IsSubsequence<T(==)>(a: seq<T>, b: seq<T>)
    decreases |b|
  {
    if |a| == 0 then true
    else if |b| == 0 then false
    else if a[0] == b[0] then IsSubsequence(a[1..], b[1..])
    else IsSubsequence(a, b[1..])
  }

  /** The filtered list keeps the roster's order: it is a subsequence of the roster. */
  lemma {:induction false} ApplyIsSubsequence(roster: seq<Person>, c: Criteria)
    ensures IsSubsequence(Apply(roster, c), roster)
    decreases |roster|
  {
    if |roster| > 0 {
      ApplyIsSubsequence(roster[1..], c);
      var r := Apply(roster, c);
      if Matches(roster[0], c) {
        assert r[1..] == Apply(roster[1..], c);
      } else if |r| > 0 {
        // r's head matches, so it cannot be the skipped roster[0]
        assert r[0] != roster[0];
      }
    }
  }

  /** Filtering a concatenation filters each part separately: the filter never moves a
      record across another. */
  lemma {:induction false} ApplyConcat(a: seq<Person>, b: seq<Person>, c: Criteria)
    ensures Apply(a + b, c) == Apply(a, c) + Apply(b, c)
    decreases |a|
  {
    if |a| > 0 {
      assert (a + b)[1..] == a[1..] + b;
      ApplyConcat(a[1..], b, c);
    } else {
      assert a + b == b;
    }
  }

  /** A list all of whose records match passes through the filter unchanged. */
  lemma {:induction false} ApplyAllMatching(s: seq<Person>, c: Criteria)
    requires forall k :: 0 <= k < |s| ==> Matches(s[k], c)
    ensures Apply(s, c) == s
    decreases |s|
  {
    if |s| > 0 {
      ApplyAllMatching(s[1..], c);
      assert s == [s[0]] + s[1..];
    }
  }

  /** Filtering twice with the same criteria gives the same list as filtering once. */
  lemma ApplyIdempotent(roster: seq<Person>, c: Criteria)
    ensures Apply(Apply(roster, c), c) == Apply(roster, c)
  {
    ApplyAllMatching(Apply(roster, c), c);
  }

  /** With no text typed and the switch off, the whole roster comes back in order. */
  lemma ApplyNoCriteria(roster: seq<Person>)
    ensures Apply(roster, NoCriteria) == roster
  {
    ApplyAllMatching(roster, NoCriteria);
  }

  /** The name search does not fold case: "Ann" finds "Anna Lee" but not "Hannah Ng",
      whose "ann" is lower-case. */
  lemma NameSearchIsCaseSensitive(anna: Person, hannah: Person)
    requires anna.firstName == "Anna" && anna.lastName == "Lee"
    requires hannah.firstName == "Hannah" && hannah.lastName == "Ng"
    ensures Matches(anna, NoCriteria.(nameQuery := "Ann"))
    ensures !Matches(hannah, NoCriteria.(nameQuery := "Ann"))
  {
    assert FullName(anna) == "Anna Lee";
    assert FullName(hannah) == "Hannah Ng";
    assert "Ann" <= "Anna Lee";
    var name := FullName(hannah);
    IncludesIffOccurs(name, "Ann");
    forall i | OccursAt(name, "Ann", i)
      ensures 0 <= i < |name| && name[i] == 'A'
    {
      assert name[i..i + 3][0] == name[i];
    }
    assert forall i :: 0 <= i < |name| ==> name[i] != 'A';
  }
}
