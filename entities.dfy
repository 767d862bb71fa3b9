/**
 * Named-entity filtering and de-duplication (`filter_entities`).
 *
 * The entities that the language model recognises in a document are
 * reduced in two passes: a comprehension drops every entity whose kind is
 * excluded or whose text is too short, then a loop keeps, for every key
 * (kind, lower-cased text), only the first entity that carries it.
 */
module Entities {
  import opened Wrappers

  /** One recognised entity: its kind (`ent.label_`) and its text. */
  datatype Entity = Entity(kind: string, text: string)

  /** `EntityFilterOptions`: kinds to drop and the minimum text length. */
  datatype FilterOptions = FilterOptions(excludeTypes: seq<string>, minLength: int)

  /** `EXCLUDED_ENTITY_TYPES`; only membership in it is ever tested. */
  const ExcludedEntityTypes: seq<string> :=
    ["TIME", "DATE", "LANGUAGE", "PERCENT", "MONEY", "QUANTITY", "ORDINAL", "CARDINAL"]

  /** The options used when none are given. */
  const DefaultOptions: FilterOptions := FilterOptions(ExcludedEntityTypes, 1)

  /** The de-duplication key: the kind and the lower-cased text. */
  type DedupKey = (string, string)

  function LowerChar(c: char): char {
    if 'A' <= c <= 'Z' then (c as int + 32) as char else c
  }

  /**
   * `str.lower()`, restricted to the ASCII letters: every upper-case letter
   * becomes its lower-case partner, every other character is kept.
   */
  function Lower(s: string): (r: string)
    ensures |r| == |s|
    ensures forall i :: 0 <= i < |r| ==> !('A' <= r[i] <= 'Z')
    ensures forall i :: 0 <= i < |s| && 'A' <= s[i] <= 'Z' ==> r[i] as int == s[i] as int + 32
    ensures forall i :: 0 <= i < |s| && !('A' <= s[i] <= 'Z') ==> r[i] == s[i]
  {
    seq(|s|, i requires 0 <= i < |s| => LowerChar(s[i]))
  }

  /**
   * The de-duplication key: the kind as it is, and the text in lower case,
   * so that its text is left alone by a second lowering.
   */
  function KeyOf(e: Entity): (k: DedupKey)
    ensures k.0 == e.kind && |k.1| == |e.text|
    ensures Lower(k.1) == k.1
  {
    var t := Lower(e.text);
    assert Lower(t) == t;
    (e.kind, t)
  }

  /**
   * Two entities are duplicates exactly when they have the same kind and
   * texts of the same length that agree character by character once lower-cased.
   */
  lemma SameKeyIffEqualIgnoringCase(a: Entity, b: Entity)
    ensures KeyOf(a) == KeyOf(b) <==>
      && a.kind == b.kind
      && |a.text| == |b.text|
      && forall i :: 0 <= i < |a.text| ==> LowerChar(a.text[i]) == LowerChar(b.text[i])
  {
    if KeyOf(a) == KeyOf(b) {
      forall i | 0 <= i < |a.text| ensures LowerChar(a.text[i]) == LowerChar(b.text[i]) {
        assert Lower(a.text)[i] == Lower(b.text)[i];
      }
    }
    if a.kind == b.kind && |a.text| == |b.text| && forall i :: 0 <= i < |a.text| ==> LowerChar(a.text[i]) == LowerChar(b.text[i]) {
      assert Lower(a.text) == Lower(b.text);
    }
  }

  /** The condition of the comprehension that builds `entities`. */
  predicate Admissible(e: Entity, opts: FilterOptions) {
    e.kind !in opts.excludeTypes && |e.text| >= opts.minLength
  }

  /** The comprehension: the admissible entities, in input order. */
  function Filtered(ents: seq<Entity>, opts: FilterOptions): (r: seq<Entity>)
    ensures |r| <= |ents|
    ensures forall e :: e in r <==> e in ents && Admissible(e, opts)
  {
    if ents == [] then []
    else
      var init := ents[..|ents| - 1];
      var last := ents[|ents| - 1];
      assert ents == init + [last];
      var kept := Filtered(init, opts);
      if Admissible(last, opts) then kept + [last] else kept
  }

  /**
   * Reference definition, independent of the comprehension: the positions
   * below `n` that hold an admissible entity, in increasing order.
   */
  function AdmissibleIndices(ents: seq<Entity>, opts: FilterOptions, n: nat): (idx: seq<nat>)
    requires n <= |ents|
    ensures forall k :: 0 <= k < |idx| ==> idx[k] < n && Admissible(ents[idx[k]], opts)
    ensures forall k, l :: 0 <= k < l < |idx| ==> idx[k] < idx[l]
    ensures forall i :: 0 <= i < n && Admissible(ents[i], opts) ==> i in idx
  {
    if n == 0 then []
    else AdmissibleIndices(ents, opts, n - 1) + (if Admissible(ents[n - 1], opts) then [n - 1] else [])
  }

  /** The keys carried by the first `n` entities of `s`. */
  function KeysBefore(s: seq<Entity>, n: nat): set<DedupKey>
    requires n <= |s|
  {
    set i | 0 <= i < n :: KeyOf(s[i])
  }

  /** The keys carried by the entities of `s`. */
  function KeySet(s: seq<Entity>): set<DedupKey> {
    KeysBefore(s, |s|)
  }

  /**
   * What the de-duplication loop has built after its first `n` rounds:
   * an entity is appended when its key is not among the keys kept so far.
   */
  function DedupUpTo(s: seq<Entity>, n: nat): (r: seq<Entity>)
    requires n <= |s|
    ensures |r| <= n
    ensures forall e :: e in r ==> e in s[..n]
  {
    if n == 0 then []
    else
      var d := DedupUpTo(s, n - 1);
      if KeyOf(s[n - 1]) in KeySet(d) then d else d + [s[n - 1]]
  }

  /**
   * The whole loop's result: the entities at the first-occurrence positions,
   * in input order, carrying exactly the keys of the input.
   */
  function Dedup(s: seq<Entity>): (r: seq<Entity>)
    ensures Picks(r, s, FirstIndices(s, |s|))
    ensures KeySet(r) == KeySet(s)
  {
    DedupKeepsFirstOccurrences(s, |s|);
    DedupKeys(s, |s|);
    DedupUpTo(s, |s|)
  }

  /** Position `i` holds the first entity of `s` with its key. */
  predicate FirstOccurrence(s: seq<Entity>, i: nat)
    requires i < |s|
  {
    forall j :: 0 <= j < i ==> KeyOf(s[j]) != KeyOf(s[i])
  }

  /**
   * Reference definition, independent of the loop: the positions below `n`
   * that hold a first occurrence, in increasing order.
   */
  function FirstIndices(s: seq<Entity>, n: nat): (idx: seq<nat>)
    requires n <= |s|
    ensures forall k :: 0 <= k < |idx| ==> idx[k] < n && FirstOccurrence(s, idx[k])
    ensures forall k, l :: 0 <= k < l < |idx| ==> idx[k] < idx[l]
    ensures forall i :: 0 <= i < n && FirstOccurrence(s, i) ==> i in idx
  {
    if n == 0 then []
    else FirstIndices(s, n - 1) + (if FirstOccurrence(s, n - 1) then [n - 1] else [])
  }

  lemma KeySetAppend(s: seq<Entity>, e: Entity)
    ensures KeySet(s + [e]) == KeySet(s) + {KeyOf(e)}
  {
    var t := s + [e];
    assert forall i :: 0 <= i < |s| ==> t[i] == s[i];
    assert t[|s|] == e;
  }

  /** The loop keeps exactly the keys it has seen. */
  lemma {:induction false} DedupKeys(s: seq<Entity>, n: nat)
    requires n <= |s|
    ensures KeySet(DedupUpTo(s, n)) == KeysBefore(s, n)
  {
    if n > 0 {
      DedupKeys(s, n - 1);
      var d := DedupUpTo(s, n - 1);
      KeySetAppend(d, s[n - 1]);
      assert KeysBefore(s, n) == KeysBefore(s, n - 1) + {KeyOf(s[n - 1])};
    }
  }

  /** A first occurrence is appended to what the loop has kept. */
  lemma KeptStep(s: seq<Entity>, n: nat)
    requires 0 < n <= |s| && FirstOccurrence(s, n - 1)
    requires KeySet(DedupUpTo(s, n - 1)) == KeysBefore(s, n - 1)
    ensures DedupUpTo(s, n) == DedupUpTo(s, n - 1) + [s[n - 1]]
    ensures FirstIndices(s, n) == FirstIndices(s, n - 1) + [n - 1]
  {
    assert KeyOf(s[n - 1]) !in KeysBefore(s, n - 1);
  }

  /** A repeated key is skipped. */
  lemma SkippedStep(s: seq<Entity>, n: nat)
    requires 0 < n <= |s| && !FirstOccurrence(s, n - 1)
    requires KeySet(DedupUpTo(s, n - 1)) == KeysBefore(s, n - 1)
    ensures DedupUpTo(s, n) == DedupUpTo(s, n - 1)
    ensures FirstIndices(s, n) == FirstIndices(s, n - 1)
  {
    var j :| 0 <= j < n - 1 && KeyOf(s[j]) == KeyOf(s[n - 1]);
    assert KeyOf(s[n - 1]) in KeysBefore(s, n - 1);
  }

  /** `d` is the sequence of the entities of `s` at the positions `idx`. */
  ghost predicate Picks(d: seq<Entity>, s: seq<Entity>, idx: seq<nat>) {
    |d| == |idx| && forall k :: 0 <= k < |d| ==> idx[k] < |s| && d[k] == s[idx[k]]
  }

  lemma PicksAppend(d: seq<Entity>, s: seq<Entity>, idx: seq<nat>, i: nat)
    requires Picks(d, s, idx) && i < |s|
    ensures Picks(d + [s[i]], s, idx + [i])
  {
  }

  /**
   * The comprehension keeps input order and multiplicity: its result is
   * the input at the admissible positions, in increasing order.
   */
  lemma {:induction false} FilteredKeepsOrder(ents: seq<Entity>, opts: FilterOptions, n: nat)
    requires n <= |ents|
    ensures Picks(Filtered(ents[..n], opts), ents, AdmissibleIndices(ents, opts, n))
  {
    if n > 0 {
      FilteredKeepsOrder(ents, opts, n - 1);
      assert ents[..n][..n - 1] == ents[..n - 1];
      if Admissible(ents[n - 1], opts) {
        PicksAppend(Filtered(ents[..n - 1], opts), ents, AdmissibleIndices(ents, opts, n - 1), n - 1);
      }
    }
  }

  /** The whole comprehension: the input at exactly its admissible positions, in input order. */
  lemma FilteredPicksAdmissible(ents: seq<Entity>, opts: FilterOptions)
    ensures Picks(Filtered(ents, opts), ents, AdmissibleIndices(ents, opts, |ents|))
  {
    FilteredKeepsOrder(ents, opts, |ents|);
    assert ents[..|ents|] == ents;
  }

  /**
   * The loop's result is the subsequence of the first occurrences: its
   * k-th entity is the entity at the k-th first-occurrence position.
   */
  lemma {:induction false} DedupKeepsFirstOccurrences(s: seq<Entity>, n: nat)
    requires n <= |s|
    ensures Picks(DedupUpTo(s, n), s, FirstIndices(s, n))
  {
    if n > 0 {
      DedupKeepsFirstOccurrences(s, n - 1);
      DedupKeys(s, n - 1);
      if FirstOccurrence(s, n - 1) {
        KeptStep(s, n);
        PicksAppend(DedupUpTo(s, n - 1), s, FirstIndices(s, n - 1), n - 1);
      } else {
        SkippedStep(s, n);
      }
    }
  }

  /** No two entities of the result share a key. */
  lemma DedupNoDuplicateKeys(s: seq<Entity>)
    ensures forall i, j :: 0 <= i < j < |Dedup(s)| ==> KeyOf(Dedup(s)[i]) != KeyOf(Dedup(s)[j])
  {
    DedupKeepsFirstOccurrences(s, |s|);
    var idx := FirstIndices(s, |s|);
    forall i, j | 0 <= i < j < |Dedup(s)|
      ensures KeyOf(Dedup(s)[i]) != KeyOf(Dedup(s)[j])
    {
      assert idx[i] < idx[j] && FirstOccurrence(s, idx[j]);
    }
  }

  /** Every key of the input is kept exactly once, by its first occurrence. */
  lemma DedupKeepsEveryKey(s: seq<Entity>)
    ensures KeySet(Dedup(s)) == KeySet(s)
    ensures forall i :: 0 <= i < |s| && FirstOccurrence(s, i) ==> s[i] in Dedup(s)
    ensures forall e :: e in Dedup(s) ==> e in s
  {
    DedupKeys(s, |s|);
    DedupKeepsFirstOccurrences(s, |s|);
    var idx := FirstIndices(s, |s|);
    forall i | 0 <= i < |s| && FirstOccurrence(s, i) ensures s[i] in Dedup(s) {
      var k :| 0 <= k < |idx| && idx[k] == i;
      assert Dedup(s)[k] == s[i];
    }
    forall e | e in Dedup(s) ensures e in s {
      var k :| 0 <= k < |Dedup(s)| && Dedup(s)[k] == e;
      assert e == s[idx[k]];
    }
  }

  /**
   * `filter_entities`: the comprehension, then the de-duplication loop over
   * a growing `seen` set of keys.
   */
  method FilterEntities(docEnts: seq<Entity>, options: Option<FilterOptions>) returns (unique: seq<Entity>)
    ensures unique == Dedup(Filtered(docEnts, options.GetOr(DefaultOptions)))
    ensures forall e :: e in unique ==> e in docEnts && Admissible(e, options.GetOr(DefaultOptions))
    ensures forall i, j :: 0 <= i < j < |unique| ==> KeyOf(unique[i]) != KeyOf(unique[j])
  {
    var opts := options.GetOr(DefaultOptions);
    var entities := Filtered(docEnts, opts);
    var seen: set<DedupKey> := {};
    unique := [];
    for i := 0 to |entities|
      invariant unique == DedupUpTo(entities, i)
      invariant seen == KeySet(unique)
    {
      var key := KeyOf(entities[i]);
      if key !in seen {
        KeySetAppend(unique, entities[i]);
        seen := seen + {key};
        unique := unique + [entities[i]];
      }
    }
    DedupNoDuplicateKeys(entities);
    DedupKeepsEveryKey(entities);
  }
}
