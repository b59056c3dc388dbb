/**
 * The shelter roster: the animal records, the search filter behind the
 * result grid, the rewrite that records an adoption and the construction
 * and prepending of a surrendered animal. All of these are pure functions
 * over a `seq<Animal>`; the component's handlers in module Shelter apply
 * them to its state.
 */
module Roster {
  import opened Text

  datatype Option<T> = None | Some(value: T)

  /** Who adopted an animal and when (an ISO-8601 timestamp string). */
  datatype Adopter = Adopter(name: string, email: string, notes: string, date: string)

  /** One creature of the roster. `adoptedBy` is present only on records an
      adoption was recorded for. */
  datatype Animal = Animal(
    id: string,
    name: string,
    species: string,
    age: string,
    size: string,
    notes: string,
    image: string,
    available: bool,
    adoptedBy: Option<Adopter>)

  /** Adopting a record always makes it unavailable. */
  predicate AdoptionConsistent(s: seq<Animal>) {
    forall k :: 0 <= k < |s| ==> s[k].adoptedBy.Some? ==> !s[k].available
  }

  /** No two records share an id. */
  predicate UniqueIds(s: seq<Animal>) {
    forall k, m :: 0 <= k < m < |s| ==> s[k].id != s[m].id
  }

  // ---------------------------------------------------------------------------
  // Search

  /** `Array.prototype.filter`: the elements of `s` that satisfy `p`, in
      their order in `s`. */
  function Filter<T>(s: seq<T>, p: T -> bool): (r: seq<T>)
    ensures |r| <= |s|
    ensures forall k :: 0 <= k < |r| ==> r[k] in s && p(r[k])
  {
    if s == [] then [] else (if p(s[0]) then [s[0]] else []) + Filter(s[1..], p)
  }

  /** The indices `j` with `lo <= j < |s|` whose element satisfies `p`,
      ascending. */
  ghost function Hits<T>(s: seq<T>, p: T -> bool, lo: nat): seq<nat>
    decreases |s| - lo
  {
    if lo >= |s| then [] else (if p(s[lo]) then [lo] else []) + Hits(s, p, lo + 1)
  }

  /** `Hits` lists, in strictly ascending order, exactly the indices from
      `lo` on whose element satisfies `p`. */
  lemma {:induction false} HitsExact<T>(s: seq<T>, p: T -> bool, lo: nat)
    ensures var idx := Hits(s, p, lo);
            && (forall k :: 0 <= k < |idx| ==> lo <= idx[k] < |s|)
            && (forall k, m :: 0 <= k < m < |idx| ==> idx[k] < idx[m])
            && (forall j :: lo <= j < |s| ==> (j in idx <==> p(s[j])))
    decreases |s| - lo
  {
    if lo < |s| {
      HitsExact(s, p, lo + 1);
    }
  }

  /** `Filter(s[lo..], p)` is `s` read at `Hits(s, p, lo)`. */
  lemma {:induction false} FilterAtHits<T>(s: seq<T>, p: T -> bool, lo: nat)
    requires lo <= |s|
    ensures |Filter(s[lo..], p)| == |Hits(s, p, lo)|
    ensures forall k :: 0 <= k < |Hits(s, p, lo)| ==>
              Hits(s, p, lo)[k] < |s| && Filter(s[lo..], p)[k] == s[Hits(s, p, lo)[k]]
    decreases |s| - lo
  {
    if lo < |s| {
      FilterAtHits(s, p, lo + 1);
      assert s[lo..][0] == s[lo] && s[lo..][1..] == s[lo + 1..];
      var rest, restIdx := Filter(s[lo + 1..], p), Hits(s, p, lo + 1);
      var r, idx := Filter(s[lo..], p), Hits(s, p, lo);
      if p(s[lo]) {
        assert r == [s[lo]] + rest && idx == [lo] + restIdx;
        forall k | 0 <= k < |r| ensures idx[k] < |s| && r[k] == s[idx[k]] {
          if k > 0 { assert r[k] == rest[k - 1] && idx[k] == restIdx[k - 1]; }
        }
      } else {
        assert r == rest && idx == restIdx;
      }
    }
  }

  /** An element is kept exactly when it is in `s` and satisfies `p`. */
  lemma {:induction false} FilterMembers<T>(s: seq<T>, p: T -> bool, x: T)
    ensures x in Filter(s, p) <==> x in s && p(x)
  {
    if s != [] {
      FilterMembers(s[1..], p, x);
      assert s == [s[0]] + s[1..];
    }
  }

  /** Filtering a concatenation filters each part. */
  lemma {:induction false} FilterAppend<T>(s: seq<T>, t: seq<T>, p: T -> bool)
    ensures Filter(s + t, p) == Filter(s, p) + Filter(t, p)
  {
    if s == [] {
      assert s + t == t;
    } else {
      var head := if p(s[0]) then [s[0]] else [];
      assert (s + t)[0] == s[0] && (s + t)[1..] == s[1..] + t;
      assert Filter(s + t, p) == head + Filter(s[1..] + t, p);
      FilterAppend(s[1..], t, p);
      assert Filter(s, p) == head + Filter(s[1..], p);
    }
  }

  /** Filtering by a conjunction is filtering twice. */
  lemma {:induction false} FilterBoth<T>(s: seq<T>, p: T -> bool, q: T -> bool, pq: T -> bool)
    requires forall x :: pq(x) == (p(x) && q(x))
    ensures Filter(s, pq) == Filter(Filter(s, p), q)
  {
    if s != [] {
      FilterBoth(s[1..], p, q, pq);
      var head := if p(s[0]) then [s[0]] else [];
      FilterAppend(head, Filter(s[1..], p), q);
    }
  }

  /** Filters that agree on every element give the same result. */
  lemma {:induction false} FilterCongruent<T>(s: seq<T>, p: T -> bool, q: T -> bool)
    requires forall x :: p(x) == q(x)
    ensures Filter(s, p) == Filter(s, q)
  {
    if s != [] {
      FilterCongruent(s[1..], p, q);
    }
  }

  /** A filter every element passes keeps everything. */
  lemma {:induction false} FilterAll<T>(s: seq<T>, p: T -> bool)
    requires forall k :: 0 <= k < |s| ==> p(s[k])
    ensures Filter(s, p) == s
  {
    if s != [] {
      FilterAll(s[1..], p);
      assert s == [s[0]] + s[1..];
    }
  }

  /** The grid's test for one record: the lowered query occurs in the lowered
      name or the lowered species, and the record is available when only
      adoptable creatures are asked for. */
  predicate Matches(a: Animal, query: string, onlyAvailable: bool) {
    var q := Lower(query);
    && (Includes(Lower(a.name), q) || Includes(Lower(a.species), q))
    && (!onlyAvailable || a.available)
  }

  /** `filtered()`: the records of `s` that match the query. */
  function Query(s: seq<Animal>, query: string, onlyAvailable: bool): seq<Animal> {
    Filter(s, a => Matches(a, query, onlyAvailable))
  }

  /** The query result is the roster read at exactly the matching indices,
      in ascending order: it keeps roster order and misses no match. */
  lemma QueryInRosterOrder(s: seq<Animal>, query: string, onlyAvailable: bool)
    ensures var r, idx := Query(s, query, onlyAvailable), Hits(s, a => Matches(a, query, onlyAvailable), 0);
            && |r| == |idx|
            && (forall k :: 0 <= k < |r| ==> idx[k] < |s| && r[k] == s[idx[k]])
            && (forall k, m :: 0 <= k < m < |idx| ==> idx[k] < idx[m])
            && (forall j :: 0 <= j < |s| ==> (j in idx <==> Matches(s[j], query, onlyAvailable)))
  {
    FilterAtHits(s, a => Matches(a, query, onlyAvailable), 0);
    HitsExact(s, a => Matches(a, query, onlyAvailable), 0);
    assert s[0..] == s;
  }

  /** A record is in the result exactly when it is in the roster and matches. */
  lemma QueryMembers(s: seq<Animal>, query: string, onlyAvailable: bool, x: Animal)
    ensures x in Query(s, query, onlyAvailable) <==> x in s && Matches(x, query, onlyAvailable)
  {
    FilterMembers(s, a => Matches(a, query, onlyAvailable), x);
  }

  /** With an empty query and no availability filter the whole roster is
      listed, in order. */
  lemma QueryEmptyIsAll(s: seq<Animal>)
    ensures Query(s, "", false) == s
  {
    assert Lower("") == "";
    FilterAll(s, a => Matches(a, "", false));
  }

  /** "Show only adoptable" narrows the unfiltered result to its available
      records. */
  lemma QueryOnlyAvailable(s: seq<Animal>, query: string)
    ensures Query(s, query, true) == Filter(Query(s, query, false), (a: Animal) => a.available)
  {
    FilterBoth(s, a => Matches(a, query, false), (a: Animal) => a.available, a => Matches(a, query, true));
  }

  /** Searching a concatenation searches each part. */
  lemma QueryAppend(s: seq<Animal>, t: seq<Animal>, query: string, onlyAvailable: bool)
    ensures Query(s + t, query, onlyAvailable) == Query(s, query, onlyAvailable) + Query(t, query, onlyAvailable)
  {
    FilterAppend(s, t, a => Matches(a, query, onlyAvailable));
  }

  /** The case of the query does not matter. */
  lemma QueryCaseInsensitive(s: seq<Animal>, query: string, onlyAvailable: bool)
    ensures Query(s, Lower(query), onlyAvailable) == Query(s, query, onlyAvailable)
  {
    LowerIdempotent(query);
    FilterCongruent(s, a => Matches(a, Lower(query), onlyAvailable), a => Matches(a, query, onlyAvailable));
  }

  /** A record whose lowered species contains the lowered query is listed. */
  lemma SpeciesHit(a: Animal, query: string, onlyAvailable: bool)
    requires Includes(Lower(a.species), Lower(query))
    requires !onlyAvailable || a.available
    ensures Query([a], query, onlyAvailable) == [a]
  {
    assert Matches(a, query, onlyAvailable);
    FilterAll([a], x => Matches(x, query, onlyAvailable));
  }

  /** Searching "kneazle" finds a record whose species is "Kneazle". */
  lemma KneazleFound(a: Animal)
    requires a.species == "Kneazle"
    ensures Query([a], "kneazle", false) == [a]
  {
    var q := "kneazle";
    LowerNoUpper(q);
    LowerNoUpper("neazle");
    assert a.species == ['K'] + "neazle";
    assert Lower(a.species) == [LowerChar('K')] + Lower("neazle");
    assert Lower(a.species) == q;
    assert q <= Lower(a.species);
    SpeciesHit(a, q, false);
  }

  // ---------------------------------------------------------------------------
  // Adoption

  /** The record `a` with an adoption recorded on it. */
  function Adopted(a: Animal, adopter: Adopter): Animal {
    a.(available := false, adoptedBy := Some(adopter))
  }

  /** The adoption rewrite: every record whose id is `id` becomes unavailable
      and carries `adopter`; every other record is kept as it is. Availability is
      not checked. */
  function MarkAdopted(s: seq<Animal>, id: string, adopter: Adopter): (r: seq<Animal>)
    ensures |r| == |s|
    ensures forall k :: 0 <= k < |s| ==> r[k].id == s[k].id
    ensures forall k :: 0 <= k < |s| && s[k].id == id ==> r[k] == Adopted(s[k], adopter)
    ensures forall k :: 0 <= k < |s| && s[k].id != id ==> r[k] == s[k]
  {
    if s == [] then []
    else [if s[0].id == id then Adopted(s[0], adopter) else s[0]] + MarkAdopted(s[1..], id, adopter)
  }

  /** Without a record of that id the roster is left as it is. */
  lemma MarkAdoptedUnknownId(s: seq<Animal>, id: string, adopter: Adopter)
    requires forall k :: 0 <= k < |s| ==> s[k].id != id
    ensures MarkAdopted(s, id, adopter) == s
  {
    var r := MarkAdopted(s, id, adopter);
    assert forall k :: 0 <= k < |s| ==> r[k] == s[k];
  }

  /** Recording an adoption keeps "adopted implies unavailable". */
  lemma MarkAdoptedConsistent(s: seq<Animal>, id: string, adopter: Adopter)
    requires AdoptionConsistent(s)
    ensures AdoptionConsistent(MarkAdopted(s, id, adopter))
  {
  }

  /** Recording an adoption keeps the ids distinct. */
  lemma MarkAdoptedUniqueIds(s: seq<Animal>, id: string, adopter: Adopter)
    requires UniqueIds(s)
    ensures UniqueIds(MarkAdopted(s, id, adopter))
  {
  }

  /** An adopted record drops out of the "only adoptable" listing. */
  lemma AdoptedLeavesAvailableListing(s: seq<Animal>, id: string, adopter: Adopter, query: string)
    ensures forall x :: x in Query(MarkAdopted(s, id, adopter), query, true) ==> x.id != id
  {
    var r := MarkAdopted(s, id, adopter);
    forall x | x in Query(r, query, true) ensures x.id != id {
      QueryMembers(r, query, true, x);
      var k :| 0 <= k < |r| && r[k] == x;
    }
  }

  /** A copy of an available record taken before its adoption is no longer
      in the roster afterwards: the component's `selected` value is such a
      copy. */
  lemma AdoptionStalesCopy(s: seq<Animal>, a: Animal, adopter: Adopter)
    requires a in s && a.available
    ensures a !in MarkAdopted(s, a.id, adopter)
  {
    var r := MarkAdopted(s, a.id, adopter);
    forall k | 0 <= k < |r| ensures r[k] != a {
      assert !r[k].available || r[k].id != a.id;
    }
  }

  /** The seeded egg is unavailable, and is adopted all the same. */
  lemma UnavailableRecordIsAdopted(egg: Animal, adopter: Adopter)
    requires !egg.available && egg.adoptedBy.None?
    ensures MarkAdopted([egg], egg.id, adopter) == [Adopted(egg, adopter)]
  {
  }

  // ---------------------------------------------------------------------------
  // Surrender

  /** The intake form's five fields as typed in. */
  datatype Intake = Intake(name: string, species: string, age: string, size: string, notes: string)

  const PlaceholderImage: string :=
    "https://images.unsplash.com/photo-1518791841217-8f162f1e1131?w=800&q=60&auto=format&fit=crop&ixlib=rb-4.0.3&s=placeholder"

  /** JavaScript's `v || d` on strings: only the empty string is falsy. */
  function OrDefault(v: string, d: string): string {
    if v == "" then d else v
  }

  /** The record a surrender creates, `now` being the millisecond clock: an
      id `custom-<now>`, an empty field replaced by its default and any other
      field (whitespace-only included) kept, the placeholder image, available
      and not adopted. */
  function NewAnimal(f: Intake, now: nat): (a: Animal)
    ensures a.id == "custom-" + Decimal(now)
    ensures a.name == (if f.name == "" then "Unnamed Creature" else f.name)
    ensures a.species == (if f.species == "" then "Mysterious Creature" else f.species)
    ensures a.age == (if f.age == "" then "unknown" else f.age)
    ensures a.size == (if f.size == "" then "medium" else f.size)
    ensures a.notes == (if f.notes == "" then "No notes" else f.notes)
    ensures a.image == PlaceholderImage
    ensures a.available && a.adoptedBy.None?
  {
    Animal(
      "custom-" + Decimal(now),
      OrDefault(f.name, "Unnamed Creature"),
      OrDefault(f.species, "Mysterious Creature"),
      OrDefault(f.age, "unknown"),
      OrDefault(f.size, "medium"),
      OrDefault(f.notes, "No notes"),
      PlaceholderImage,
      true,
      None)
  }

  /** No text field of a surrendered record is empty. */
  lemma NewAnimalFieldsFilled(f: Intake, now: nat)
    ensures var a := NewAnimal(f, now);
            a.name != "" && a.species != "" && a.age != "" && a.size != "" && a.notes != ""
  {
  }

  /** Surrenders at different milliseconds get different ids; two in the same
      millisecond get the same one. */
  lemma NewAnimalIds(f: Intake, g: Intake, m: nat, n: nat)
    ensures NewAnimal(f, m).id == NewAnimal(g, n).id <==> m == n
  {
    if m != n {
      DecimalInjective(m, n);
      var p := "custom-";
      assert Decimal(m) == (p + Decimal(m))[|p|..];
      assert Decimal(n) == (p + Decimal(n))[|p|..];
    }
  }

  /** `[newAnimal, ...p]`. */
  function Surrender(s: seq<Animal>, a: Animal): seq<Animal> {
    [a] + s
  }

  /** The surrendered record is first and the old roster follows unchanged. */
  lemma SurrenderShape(s: seq<Animal>, a: Animal)
    ensures |Surrender(s, a)| == |s| + 1
    ensures Surrender(s, a)[0] == a
    ensures forall k :: 0 <= k < |s| ==> Surrender(s, a)[k + 1] == s[k]
  {
  }

  /** The new record heads the search result when it matches; the rest of the
      result is the old one. */
  lemma SurrenderQuery(s: seq<Animal>, a: Animal, query: string, onlyAvailable: bool)
    ensures Query(Surrender(s, a), query, onlyAvailable)
         == (if Matches(a, query, onlyAvailable) then [a] else []) + Query(s, query, onlyAvailable)
  {
    assert Surrender(s, a)[1..] == s;
  }

  /** Surrendering an unadopted record keeps "adopted implies unavailable". */
  lemma SurrenderConsistent(s: seq<Animal>, f: Intake, now: nat)
    requires AdoptionConsistent(s)
    ensures AdoptionConsistent(Surrender(s, NewAnimal(f, now)))
  {
    var r := Surrender(s, NewAnimal(f, now));
    assert forall k :: 1 <= k < |r| ==> r[k] == s[k - 1];
  }

  /** Ids stay distinct when the new id is not already taken. */
  lemma SurrenderUniqueIds(s: seq<Animal>, a: Animal)
    requires UniqueIds(s)
    requires forall k :: 0 <= k < |s| ==> s[k].id != a.id
    ensures UniqueIds(Surrender(s, a))
  {
    var r := Surrender(s, a);
    assert forall k :: 1 <= k < |r| ==> r[k] == s[k - 1];
  }
}
