/** `extract_relations` (app/extract.py): the variant table, the relation
    candidates of each kept segment, the per-segment triple filter and the
    final one-relation-per-pair filter. */
module RelationExtraction {
  import opened Text
  import opened Filter
  import opened RelationPatterns

  // ---------------------------------------------------------------------
  // The variant table `compound_variants`
  // ---------------------------------------------------------------------

  /** `re.sub(r'([a-z])([A-Z])', r'\1 \2', name)` from index `k`: a blank
      before every upper-case letter that follows a lower-case one. */
  function SpacedFrom(name: string, k: nat): string
    requires k <= |name|
    decreases |name| - k
  {
    if k == |name| then []
    else
      (if k > 0 && IsLower(name[k - 1]) && IsUpper(name[k]) then [' ', name[k]] else [name[k]])
      + SpacedFrom(name, k + 1)
  }

  function Spaced(name: string): string { SpacedFrom(name, 0) }

  /** Upper-case letters after lower-case ones, from index `k`. */
  function HumpsFrom(name: string, k: nat): nat
    requires k <= |name|
    decreases |name| - k
  {
    if k == |name| then 0
    else (if k > 0 && IsLower(name[k - 1]) && IsUpper(name[k]) then 1 else 0) + HumpsFrom(name, k + 1)
  }

  /** Spacing adds one blank per hump and leaves a name without humps as it
      is; dropping the added blanks gives the name back. */
  lemma {:induction false} SpacedFromShape(name: string, k: nat)
    requires k <= |name|
    ensures |SpacedFrom(name, k)| == |name| - k + HumpsFrom(name, k)
    ensures HumpsFrom(name, k) == 0 ==> SpacedFrom(name, k) == name[k..]
    decreases |name| - k
  {
    if k < |name| {
      SpacedFromShape(name, k + 1);
      if HumpsFrom(name, k) == 0 {
        assert name[k..] == [name[k]] + name[k + 1..];
      }
    }
  }

  /** The five keys `extract_relations` files a class name under. */
  function VariantKeys(name: string): seq<string>
  {
    var low := Lower(name);
    var spaced := Lower(Spaced(name));
    [low, spaced, low + "s", spaced + "s", low + "es"]
  }

  /** Keys with their class names, in insertion order. */
  type Table = seq<(string, string)>

  predicate UniqueKeys(table: Table)
  {
    forall i, j | 0 <= i < j < |table| :: table[i].0 != table[j].0
  }

  /** The position of `key`, if it is present. */
  function IndexOf(table: Table, key: string): (r: Option<nat>)
    ensures r.Some? ==> r.value < |table| && table[r.value].0 == key
    ensures r.None? ==> forall i | 0 <= i < |table| :: table[i].0 != key
    decreases |table|
  {
    if table == [] then None
    else if table[|table| - 1].0 == key then Some(|table| - 1)
    else IndexOf(table[..|table| - 1], key)
  }

  /** `d.get(key)`. */
  function Lookup(table: Table, key: string): (r: Option<string>)
    ensures r.Some? <==> exists i | 0 <= i < |table| :: table[i].0 == key
    ensures r.Some? ==> exists i | 0 <= i < |table| :: table[i] == (key, r.value)
  {
    match IndexOf(table, key)
    case Some(i) => Some(table[i].1)
    case None => None
  }

  /** With unique keys, the key's one entry is the one found. */
  lemma LookupUnique(table: Table, key: string)
    requires UniqueKeys(table)
    ensures forall i | 0 <= i < |table| && table[i].0 == key :: IndexOf(table, key) == Some(i)
    ensures forall i | 0 <= i < |table| && table[i].0 == key :: Lookup(table, key) == Some(table[i].1)
  {
  }

  /** `d[key] = value`: a present key keeps its place and takes the new
      value, a new key goes last. */
  function Put(table: Table, key: string, value: string): Table
  {
    match IndexOf(table, key)
    case Some(i) => table[i := (key, value)]
    case None => table + [(key, value)]
  }

  lemma PutSpec(table: Table, key: string, value: string)
    requires UniqueKeys(table)
    ensures UniqueKeys(Put(table, key, value))
    ensures Lookup(Put(table, key, value), key) == Some(value)
    ensures forall k | k != key :: Lookup(Put(table, key, value), k) == Lookup(table, k)
    ensures |Put(table, key, value)| == |table| + (if Lookup(table, key).Some? then 0 else 1)
    ensures forall i | 0 <= i < |table| :: Put(table, key, value)[i].0 == table[i].0
    ensures forall i | 0 <= i < |Put(table, key, value)| ::
      Put(table, key, value)[i] == (key, value) || (i < |table| && Put(table, key, value)[i] == table[i])
  {
    var r := Put(table, key, value);
    assert forall i | 0 <= i < |table| && table[i].0 != key :: r[i] == table[i];
    assert forall i | |table| <= i < |r| :: r[i] == (key, value);
    assert UniqueKeys(r);
    forall k | k != key
      ensures Lookup(r, k) == Lookup(table, k)
    {
      LookupUnique(table, k);
      LookupUnique(r, k);
      match IndexOf(table, k)
      case Some(i) =>
        assert r[i] == table[i];
      case None =>
        assert forall i | 0 <= i < |r| :: r[i].0 != k;
    }
    LookupUnique(r, key);
  }

  function PutAll(table: Table, keys: seq<string>, value: string): Table
    decreases |keys|
  {
    if keys == [] then table else PutAll(Put(table, keys[0], value), keys[1..], value)
  }

  lemma PutFive(table: Table, keys: seq<string>, value: string)
    requires |keys| == 5
    ensures PutAll(table, keys, value) ==
      Put(Put(Put(Put(Put(table, keys[0], value), keys[1], value), keys[2], value), keys[3], value), keys[4], value)
  {
    var t1 := Put(table, keys[0], value);
    var t2 := Put(t1, keys[1], value);
    var t3 := Put(t2, keys[2], value);
    var t4 := Put(t3, keys[3], value);
    assert keys[1..][1..][1..][1..][1..] == [];
    assert PutAll(t4, keys[1..][1..][1..][1..], value) == Put(t4, keys[4], value);
    assert PutAll(t3, keys[1..][1..][1..], value) == PutAll(t4, keys[1..][1..][1..][1..], value);
    assert PutAll(t2, keys[1..][1..], value) == PutAll(t3, keys[1..][1..][1..], value);
    assert PutAll(t1, keys[1..], value) == PutAll(t2, keys[1..][1..], value);
  }

  /** The table the loop over `classNames` builds. */
  function VariantsOf(classNames: seq<string>): Table
  {
    if classNames == [] then []
    else
      var last := classNames[|classNames| - 1];
      PutAll(VariantsOf(classNames[..|classNames| - 1]), VariantKeys(last), last)
  }

  /** Build `compound_variants`. */
  method BuildVariants(classNames: seq<string>) returns (table: Table)
    ensures table == VariantsOf(classNames)
  {
    table := [];
    for n := 0 to |classNames|
      invariant table == VariantsOf(classNames[..n])
    {
      var name := classNames[n];
      assert classNames[..n + 1][..n] == classNames[..n];
      var low := Lower(name);
      var spaced := Lower(Spaced(name));
      PutFive(table, VariantKeys(name), name);
      table := Put(table, low, name);
      table := Put(table, spaced, name);
      table := Put(table, low + "s", name);
      table := Put(table, spaced + "s", name);
      table := Put(table, low + "es", name);
    }
    assert classNames[..|classNames|] == classNames;
  }

  /** Every entry names a class, under one of that class's variants. */
  predicate TableOf(table: Table, classNames: seq<string>)
  {
    UniqueKeys(table) &&
    forall i | 0 <= i < |table| :: table[i].1 in classNames && table[i].0 in VariantKeys(table[i].1)
  }

  lemma {:induction false} PutAllSpec(table: Table, keys: seq<string>, value: string, classNames: seq<string>)
    requires TableOf(table, classNames) && value in classNames
    requires forall k | k in keys :: k in VariantKeys(value)
    ensures TableOf(PutAll(table, keys, value), classNames)
    ensures forall k | k in keys :: Lookup(PutAll(table, keys, value), k).Some?
    ensures forall k | Lookup(table, k).Some? :: Lookup(PutAll(table, keys, value), k).Some?
    decreases |keys|
  {
    if keys != [] {
      var t1 := Put(table, keys[0], value);
      PutSpec(table, keys[0], value);
      forall i | 0 <= i < |t1|
        ensures t1[i].1 in classNames && t1[i].0 in VariantKeys(t1[i].1)
      {
        if i < |table| && t1[i] != table[i] {
          assert t1[i] == (keys[0], value);
        } else if i >= |table| {
          assert t1[i] == (keys[0], value);
        }
      }
      PutAllSpec(t1, keys[1..], value, classNames);
      assert forall k | k in keys && k != keys[0] :: k in keys[1..];
    }
  }

  /** The table's keys are unique, each value is one of the class names and
      each key one of its value's variants; the lower-cased name of every
      class is a key. */
  lemma {:induction false} VariantsSound(classNames: seq<string>)
    ensures TableOf(VariantsOf(classNames), classNames)
    ensures forall n | n in classNames :: Lookup(VariantsOf(classNames), Lower(n)).Some?
  {
    if classNames != [] {
      VariantsSound(classNames[..|classNames| - 1]);
      VariantsStep(classNames);
    }
  }

  /** One more class name keeps the table sound. */
  lemma VariantsStep(classNames: seq<string>)
    requires classNames != []
    requires var init := classNames[..|classNames| - 1];
      TableOf(VariantsOf(init), init) && forall n | n in init :: Lookup(VariantsOf(init), Lower(n)).Some?
    ensures TableOf(VariantsOf(classNames), classNames)
    ensures forall n | n in classNames :: Lookup(VariantsOf(classNames), Lower(n)).Some?
  {
    var init := classNames[..|classNames| - 1];
    var last := classNames[|classNames| - 1];
    var t := VariantsOf(init);
    assert VariantsOf(classNames) == PutAll(t, VariantKeys(last), last);
    assert forall n | n in init :: n in classNames;
    TableWidens(t, init, classNames);
    PutAllSpec(t, VariantKeys(last), last, classNames);
    forall n | n in classNames
      ensures Lookup(VariantsOf(classNames), Lower(n)).Some?
    {
      if n != last {
        assert n in init;
      } else {
        assert Lower(n) == VariantKeys(last)[0];
      }
    }
  }

  lemma TableWidens(table: Table, names: seq<string>, more: seq<string>)
    requires TableOf(table, names)
    requires forall n | n in names :: n in more
    ensures TableOf(table, more)
  {
  }

  // ---------------------------------------------------------------------
  // Candidates of one segment
  // ---------------------------------------------------------------------

  /** A relation found in a segment, before the per-segment triple check. */
  datatype Candidate = Candidate(source: string, target: string, verb: string, cardinality: Cardinality)

  /** The verbs of the second pattern, in the order they are tried. */
  const Verbs: seq<string> := [
    "place", "places", "contain", "contains", "reference", "references",
    "include", "includes", "have", "has", "create", "creates",
    "write", "writes", "add", "adds", "save", "saves",
    "deliver", "delivers", "delivered", "send", "sends"]

  /** The first pattern's candidate: both groups name classes, and two
      different ones. */
  function ModalCandidate(table: Table, m: ModalMatch): Option<Candidate>
  {
    var src := Lookup(table, Strip(m.subject));
    var tgt := Lookup(table, ObjectName(m.objectPart));
    if src.Some? && tgt.Some? && src.value != "" && tgt.value != "" && src.value != tgt.value then
      Some(Candidate(src.value, tgt.value, m.verb, InferCardinality(m.text)))
    else None
  }

  /** The values of the present options, in order. */
  function Somes<T>(xs: seq<Option<T>>): seq<T>
  {
    if xs == [] then []
    else Somes(xs[..|xs| - 1]) + (if xs[|xs| - 1].Some? then [xs[|xs| - 1].value] else [])
  }

  lemma {:induction false} SomesMembers<T>(xs: seq<Option<T>>)
    ensures forall y | y in Somes(xs) :: Some(y) in xs
  {
    if xs != [] {
      SomesMembers(xs[..|xs| - 1]);
      assert forall o | o in xs[..|xs| - 1] :: o in xs;
    }
  }

  lemma SomesSnoc<T>(xs: seq<Option<T>>, k: nat)
    requires k < |xs|
    ensures Somes(xs[..k + 1]) == Somes(xs[..k]) + (if xs[k].Some? then [xs[k].value] else [])
  {
    assert xs[..k + 1][..k] == xs[..k];
  }

  function ModalCandidates(table: Table, tc: string): seq<Candidate>
  {
    var ms := ModalMatchesFrom(tc, 0);
    Somes(seq(|ms|, k requires 0 <= k < |ms| => ModalCandidate(table, ms[k])))
  }

  /** The first verb, from index `v` of `verbs`, that bridges the two
      variants. */
  function FirstVerb(tc: string, sv: string, tv: string, verbs: seq<string>, v: nat): (r: Option<string>)
    requires v <= |verbs|
    ensures r.Some? ==> r.value in verbs && Bridge(tc, sv, r.value, tv)
    decreases |verbs| - v
  {
    if v == |verbs| then None
    else if Bridge(tc, sv, verbs[v], tv) then Some(verbs[v])
    else FirstVerb(tc, sv, tv, verbs, v + 1)
  }

  /** The search finds nothing exactly when no verb from `v` on bridges the
      variants. */
  lemma {:induction false} FirstVerbNone(tc: string, sv: string, tv: string, verbs: seq<string>, v: nat)
    requires v <= |verbs|
    ensures FirstVerb(tc, sv, tv, verbs, v).None? <==> forall k | v <= k < |verbs| :: !Bridge(tc, sv, verbs[k], tv)
    decreases |verbs| - v
  {
    if FirstVerb(tc, sv, tv, verbs, v).None? {
      FirstVerbNoneAll(tc, sv, tv, verbs, v);
    } else {
      FirstVerbFirst(tc, sv, tv, verbs, v);
    }
  }

  lemma {:induction false} FirstVerbNoneAll(tc: string, sv: string, tv: string, verbs: seq<string>, v: nat)
    requires v <= |verbs| && FirstVerb(tc, sv, tv, verbs, v).None?
    ensures forall k | v <= k < |verbs| :: !Bridge(tc, sv, verbs[k], tv)
    decreases |verbs| - v
  {
    if v < |verbs| {
      FirstVerbNoneAll(tc, sv, tv, verbs, v + 1);
    }
  }

  /** A verb found is the first one from `v` on that bridges the variants. */
  lemma {:induction false} FirstVerbFirst(tc: string, sv: string, tv: string, verbs: seq<string>, v: nat)
    requires v <= |verbs| && FirstVerb(tc, sv, tv, verbs, v).Some?
    ensures exists k | v <= k < |verbs| ::
      && FirstVerb(tc, sv, tv, verbs, v).value == verbs[k] && Bridge(tc, sv, verbs[k], tv)
      && forall k' | v <= k' < k :: !Bridge(tc, sv, verbs[k'], tv)
    decreases |verbs| - v
  {
    if !Bridge(tc, sv, verbs[v], tv) {
      FirstVerbFirst(tc, sv, tv, verbs, v + 1);
      var k :| v + 1 <= k < |verbs| && FirstVerb(tc, sv, tv, verbs, v + 1).value == verbs[k] && Bridge(tc, sv, verbs[k], tv)
        && forall k' | v + 1 <= k' < k :: !Bridge(tc, sv, verbs[k'], tv);
      assert forall k' | v <= k' < k :: !Bridge(tc, sv, verbs[k'], tv);
    } else {
      assert FirstVerb(tc, sv, tv, verbs, v).value == verbs[v];
    }
  }

  /** The second pattern for the pair of entries `i` and `j`. */
  function BridgeCell(table: Table, tc: string, i: nat, j: nat): Option<Candidate>
    requires i < |table| && j < |table|
  {
    if table[i].1 == table[j].1 then None
    else
      match FirstVerb(tc, table[i].0, table[j].0, Verbs, 0)
      case None => None
      case Some(v) => Some(Candidate(table[i].1, table[j].1, v, InferCardinality(tc)))
  }

  /** The cells `(i, 0) .. (i, j - 1)`. */
  function BridgeRow(table: Table, tc: string, i: nat, j: nat): seq<Candidate>
    requires i < |table| && j <= |table|
  {
    if j == 0 then []
    else
      var c := BridgeCell(table, tc, i, j - 1);
      BridgeRow(table, tc, i, j - 1) + (if c.Some? then [c.value] else [])
  }

  /** The rows `0 .. i - 1`, in the order of the nested loops. */
  function BridgeRows(table: Table, tc: string, i: nat): seq<Candidate>
    requires i <= |table|
  {
    if i == 0 then [] else BridgeRows(table, tc, i - 1) + BridgeRow(table, tc, i - 1, |table|)
  }

  /** The first entry, in table order, whose key occurs in `rest` and whose
      class is not `source`. */
  function FirstTarget(table: Table, rest: string, source: string, j: nat): (r: Option<string>)
    requires j <= |table|
    ensures r.Some? ==> r.value != source && exists k | j <= k < |table| :: table[k].1 == r.value
    decreases |table| - j
  {
    if j == |table| then None
    else if Contains(rest, table[j].0) && table[j].1 != source then Some(table[j].1)
    else FirstTarget(table, rest, source, j + 1)
  }

  /** The entry the search takes: its key occurs in `rest` and its class
      is not `source`. */
  predicate TargetEntry(table: Table, rest: string, source: string, k: nat)
    requires k < |table|
  {
    Contains(rest, table[k].0) && table[k].1 != source
  }

  /** The search finds nothing exactly when no entry from `j` on qualifies;
      otherwise it gives the class of the first entry that does. */
  lemma {:induction false} FirstTargetFirst(table: Table, rest: string, source: string, j: nat)
    requires j <= |table|
    ensures FirstTarget(table, rest, source, j).None? <==>
      forall k | j <= k < |table| :: !TargetEntry(table, rest, source, k)
    ensures FirstTarget(table, rest, source, j).Some? ==>
      exists k | j <= k < |table| ::
        && FirstTarget(table, rest, source, j).value == table[k].1 && TargetEntry(table, rest, source, k)
        && forall k' | j <= k' < k :: !TargetEntry(table, rest, source, k')
    decreases |table| - j
  {
    if j < |table| && !TargetEntry(table, rest, source, j) {
      FirstTargetFirst(table, rest, source, j + 1);
      if FirstTarget(table, rest, source, j).Some? {
        var k :| j + 1 <= k < |table| && FirstTarget(table, rest, source, j).value == table[k].1
          && TargetEntry(table, rest, source, k)
          && forall k' | j + 1 <= k' < k :: !TargetEntry(table, rest, source, k');
        assert forall k' | j <= k' < k :: !TargetEntry(table, rest, source, k');
      }
    } else if j < |table| {
      assert FirstTarget(table, rest, source, j).value == table[j].1;
    }
  }

  /** The third or fourth pattern's candidate: the subject names a class and
      some other class's variant occurs after the match. */
  function SubjectVerbCandidate(table: Table, tc: string, m: SubjectVerbMatch): Option<Candidate>
    requires m.end <= |tc|
  {
    var src := Lookup(table, Strip(m.subject));
    if src.None? || src.value == "" then None
    else
      var tgt := FirstTarget(table, tc[m.end..], src.value, 0);
      if tgt.None? || tgt.value == "" then None
      else Some(Candidate(src.value, tgt.value, Strip(m.verb), InferCardinality(tc)))
  }

  function SubjectVerbCandidates(table: Table, tc: string, kind: SubjectVerbKind): seq<Candidate>
  {
    var ms := SubjectVerbMatchesFrom(tc, 0, kind);
    Somes(seq(|ms|, k requires 0 <= k < |ms| => SubjectVerbCandidate(table, tc, ms[k])))
  }

  /** All candidates of a cleaned segment text, in the order the four
      patterns produce them. */
  function SegmentCandidates(table: Table, tc: string): seq<Candidate>
  {
    ModalCandidates(table, tc) + BridgeRows(table, tc, |table|)
    + SubjectVerbCandidates(table, tc, Able) + SubjectVerbCandidates(table, tc, Passive)
  }

  /** Every candidate joins two different classes of the table. */
  predicate GoodCandidate(table: Table, c: Candidate)
  {
    c.source != c.target
    && (exists i | 0 <= i < |table| :: table[i].1 == c.source)
    && (exists i | 0 <= i < |table| :: table[i].1 == c.target)
  }

  lemma LookupValue(table: Table, key: string)
    requires Lookup(table, key).Some?
    ensures exists i | 0 <= i < |table| :: table[i].1 == Lookup(table, key).value
  {
    var i :| 0 <= i < |table| && table[i] == (key, Lookup(table, key).value);
  }

  lemma ModalCandidatesGood(table: Table, tc: string)
    ensures forall c | c in ModalCandidates(table, tc) :: GoodCandidate(table, c)
  {
    var ms := ModalMatchesFrom(tc, 0);
    var xs := seq(|ms|, k requires 0 <= k < |ms| => ModalCandidate(table, ms[k]));
    SomesMembers(xs);
    forall c | c in ModalCandidates(table, tc)
      ensures GoodCandidate(table, c)
    {
      var k :| 0 <= k < |xs| && xs[k] == Some(c);
      LookupValue(table, Strip(ms[k].subject));
      LookupValue(table, ObjectName(ms[k].objectPart));
    }
  }

  lemma {:induction false} BridgeRowGood(table: Table, tc: string, i: nat, j: nat)
    requires i < |table| && j <= |table|
    ensures forall c | c in BridgeRow(table, tc, i, j) :: GoodCandidate(table, c)
  {
    if j > 0 {
      BridgeRowGood(table, tc, i, j - 1);
      var c := BridgeCell(table, tc, i, j - 1);
      assert BridgeRow(table, tc, i, j) == BridgeRow(table, tc, i, j - 1) + (if c.Some? then [c.value] else []);
      if c.Some? {
        assert c.value.source == table[i].1 && c.value.target == table[j - 1].1;
        assert GoodCandidate(table, c.value);
      }
    }
  }

  lemma {:induction false} BridgeRowsGood(table: Table, tc: string, i: nat)
    requires i <= |table|
    ensures forall c | c in BridgeRows(table, tc, i) :: GoodCandidate(table, c)
  {
    if i > 0 {
      BridgeRowsGood(table, tc, i - 1);
      BridgeRowGood(table, tc, i - 1, |table|);
      AllGoodAppend(table, BridgeRows(table, tc, i - 1), BridgeRow(table, tc, i - 1, |table|));
    }
  }

  lemma AllGoodAppend(table: Table, a: seq<Candidate>, b: seq<Candidate>)
    requires forall c | c in a :: GoodCandidate(table, c)
    requires forall c | c in b :: GoodCandidate(table, c)
    ensures forall c | c in a + b :: GoodCandidate(table, c)
  {
  }

  lemma SubjectVerbCandidatesGood(table: Table, tc: string, kind: SubjectVerbKind)
    ensures forall c | c in SubjectVerbCandidates(table, tc, kind) :: GoodCandidate(table, c)
  {
    var ms := SubjectVerbMatchesFrom(tc, 0, kind);
    var xs := seq(|ms|, k requires 0 <= k < |ms| => SubjectVerbCandidate(table, tc, ms[k]));
    SomesMembers(xs);
    forall c | c in SubjectVerbCandidates(table, tc, kind)
      ensures GoodCandidate(table, c)
    {
      var k :| 0 <= k < |xs| && xs[k] == Some(c);
      LookupValue(table, Strip(ms[k].subject));
    }
  }

  // ---------------------------------------------------------------------
  // Recording relations
  // ---------------------------------------------------------------------

  /** One relation of the result. */
  datatype Relation = Relation(source: string, target: string, verb: string, relType: string,
                               cardinality: Cardinality, sourceSegments: seq<string>)

  type Triple = (string, string, string)

  function TripleOf(c: Candidate): Triple { (c.source, c.target, c.verb) }

  function ToRelation(c: Candidate, segmentId: string): Relation
  {
    Relation(c.source, c.target, c.verb, "association", c.cardinality, [segmentId])
  }

  /** What recording the candidates does to `rels` and `found_in_segment`:
      a candidate whose triple was seen in this segment is dropped. */
  function RecordAll(rels: seq<Relation>, found: set<Triple>, cs: seq<Candidate>, segmentId: string)
    : (seq<Relation>, set<Triple>)
  {
    if cs == [] then (rels, found)
    else
      var acc := RecordAll(rels, found, cs[..|cs| - 1], segmentId);
      var c := cs[|cs| - 1];
      if TripleOf(c) in acc.1 then acc else (acc.0 + [ToRelation(c, segmentId)], acc.1 + {TripleOf(c)})
  }

  lemma RecordAllSnoc(rels: seq<Relation>, found: set<Triple>, cs: seq<Candidate>, k: nat, segmentId: string)
    requires k < |cs|
    ensures RecordAll(rels, found, cs[..k + 1], segmentId) ==
      var acc := RecordAll(rels, found, cs[..k], segmentId);
      if TripleOf(cs[k]) in acc.1 then acc else (acc.0 + [ToRelation(cs[k], segmentId)], acc.1 + {TripleOf(cs[k])})
  {
    assert cs[..k + 1][..k] == cs[..k];
  }

  lemma {:induction false} RecordAllAppend(rels: seq<Relation>, found: set<Triple>, a: seq<Candidate>, b: seq<Candidate>, segmentId: string)
    ensures RecordAll(rels, found, a + b, segmentId) ==
      var acc := RecordAll(rels, found, a, segmentId);
      RecordAll(acc.0, acc.1, b, segmentId)
    decreases |b|
  {
    if b == [] {
      assert a + b == a;
    } else {
      assert (a + b)[..|a + b| - 1] == a + b[..|b| - 1];
      RecordAllAppend(rels, found, a, b[..|b| - 1], segmentId);
    }
  }

  /** Recording keeps the old relations in front; each new relation comes
      from a candidate, carries the segment id and a triple not seen
      before, and the triples of the new relations are distinct. */
  lemma {:induction false} RecordAllSpec(rels: seq<Relation>, found: set<Triple>, cs: seq<Candidate>, segmentId: string)
    ensures var r := RecordAll(rels, found, cs, segmentId);
      && |r.0| >= |rels| && r.0[..|rels|] == rels
      && (forall k | |rels| <= k < |r.0| ::
            (exists c | c in cs :: r.0[k] == ToRelation(c, segmentId))
            && (r.0[k].source, r.0[k].target, r.0[k].verb) in r.1
            && (r.0[k].source, r.0[k].target, r.0[k].verb) !in found)
      && (forall k, k' | |rels| <= k < k' < |r.0| ::
            (r.0[k].source, r.0[k].target, r.0[k].verb) != (r.0[k'].source, r.0[k'].target, r.0[k'].verb))
      && found <= r.1
  {
    if cs != [] {
      var init := cs[..|cs| - 1];
      var acc := RecordAll(rels, found, init, segmentId);
      var c := cs[|cs| - 1];
      RecordAllSpec(rels, found, init, segmentId);
      assert forall x | x in init :: x in cs;
      if TripleOf(c) !in acc.1 {
        var r := acc.0 + [ToRelation(c, segmentId)];
        assert r[..|acc.0|] == acc.0;
        assert r[..|rels|] == acc.0[..|rels|];
        forall k | |rels| <= k < |r|
          ensures exists c' | c' in cs :: r[k] == ToRelation(c', segmentId)
        {
          if k < |acc.0| {
            assert r[k] == acc.0[k];
          }
        }
      }
    }
  }

  // ---------------------------------------------------------------------
  // The loops
  // ---------------------------------------------------------------------

  /** Record one candidate unless its triple was already seen. */
  method Record(rels: seq<Relation>, found: set<Triple>, c: Candidate, segmentId: string)
    returns (rels': seq<Relation>, found': set<Triple>)
    ensures (rels', found') == RecordAll(rels, found, [c], segmentId)
  {
    assert [c][..0] == [];
    var relKey := (c.source, c.target, c.verb);
    rels', found' := rels, found;
    if relKey !in found {
      found' := found + {relKey};
      rels' := rels + [ToRelation(c, segmentId)];
    }
  }

  /** The loop over `re.finditer(must_pattern, txt_clean)`. */
  method RecordModal(table: Table, tc: string, segmentId: string, rels: seq<Relation>, found: set<Triple>)
    returns (rels': seq<Relation>, found': set<Triple>)
    ensures (rels', found') == RecordAll(rels, found, ModalCandidates(table, tc), segmentId)
  {
    var ms := ModalMatchesFrom(tc, 0);
    ghost var xs := seq(|ms|, k requires 0 <= k < |ms| => ModalCandidate(table, ms[k]));
    rels', found' := rels, found;
    for k := 0 to |ms|
      invariant (rels', found') == RecordAll(rels, found, Somes(xs[..k]), segmentId)
    {
      SomesSnoc(xs, k);
      var m := ms[k];
      var sourceRaw := Strip(m.subject);
      var targetRaw := ObjectName(m.objectPart);
      var sourceName := Lookup(table, sourceRaw);
      var targetName := Lookup(table, targetRaw);
      if sourceName.Some? && targetName.Some? && sourceName.value != "" && targetName.value != ""
        && sourceName.value != targetName.value
      {
        var c := Candidate(sourceName.value, targetName.value, m.verb, InferCardinality(m.text));
        assert xs[k] == Some(c);
        RecordAllAppend(rels, found, Somes(xs[..k]), [c], segmentId);
        rels', found' := Record(rels', found', c, segmentId);
      } else {
        assert xs[k] == None;
        assert Somes(xs[..k]) + [] == Somes(xs[..k]);
      }
    }
    assert xs[..|ms|] == xs;
  }

  /** The innermost loop over `verbs` for the entries `i` and `j`; it
      stops at the first verb that bridges them. */
  method RecordCell(table: Table, tc: string, i: nat, j: nat, verbs: seq<string>, segmentId: string,
                    rels: seq<Relation>, found: set<Triple>)
    returns (rels': seq<Relation>, found': set<Triple>)
    requires i < |table| && j < |table|
    ensures var f := FirstVerb(tc, table[i].0, table[j].0, verbs, 0);
      (rels', found') == if f.Some?
        then RecordAll(rels, found, [Candidate(table[i].1, table[j].1, f.value, InferCardinality(tc))], segmentId)
        else (rels, found)
  {
    var sourceVariant, sourceName := table[i].0, table[i].1;
    var targetVariant, targetName := table[j].0, table[j].1;
    rels', found' := rels, found;
    var v := 0;
    while v < |verbs|
      invariant v <= |verbs|
      invariant FirstVerb(tc, sourceVariant, targetVariant, verbs, 0) == FirstVerb(tc, sourceVariant, targetVariant, verbs, v)
      invariant (rels', found') == (rels, found)
    {
      var verb := verbs[v];
      if Bridge(tc, sourceVariant, verb, targetVariant) {
        rels', found' := Record(rels', found', Candidate(sourceName, targetName, verb, InferCardinality(tc)), segmentId);
        return;
      }
      v := v + 1;
    }
  }

  /** The loop over the target entries for source entry `i`. */
  method RecordRow(table: Table, tc: string, i: nat, segmentId: string, rels: seq<Relation>, found: set<Triple>)
    returns (rels': seq<Relation>, found': set<Triple>)
    requires i < |table|
    ensures (rels', found') == RecordAll(rels, found, BridgeRow(table, tc, i, |table|), segmentId)
  {
    rels', found' := rels, found;
    for j := 0 to |table|
      invariant (rels', found') == RecordAll(rels, found, BridgeRow(table, tc, i, j), segmentId)
    {
      var c := BridgeCell(table, tc, i, j);
      if table[i].1 == table[j].1 {
        assert BridgeRow(table, tc, i, j + 1) == BridgeRow(table, tc, i, j) + [] == BridgeRow(table, tc, i, j);
        continue;
      }
      ghost var before := BridgeRow(table, tc, i, j);
      ghost var acc := (rels', found');
      rels', found' := RecordCell(table, tc, i, j, Verbs, segmentId, rels', found');
      if c.Some? {
        assert BridgeRow(table, tc, i, j + 1) == before + [c.value];
        RecordAllAppend(rels, found, before, [c.value], segmentId);
        assert (rels', found') == RecordAll(acc.0, acc.1, [c.value], segmentId);
      } else {
        assert BridgeRow(table, tc, i, j + 1) == before + [] == before;
      }
    }
  }

  /** The nested loops of the second pattern. */
  method RecordBridges(table: Table, tc: string, segmentId: string, rels: seq<Relation>, found: set<Triple>)
    returns (rels': seq<Relation>, found': set<Triple>)
    ensures (rels', found') == RecordAll(rels, found, BridgeRows(table, tc, |table|), segmentId)
  {
    rels', found' := rels, found;
    for i := 0 to |table|
      invariant (rels', found') == RecordAll(rels, found, BridgeRows(table, tc, i), segmentId)
    {
      RecordAllAppend(rels, found, BridgeRows(table, tc, i), BridgeRow(table, tc, i, |table|), segmentId);
      rels', found' := RecordRow(table, tc, i, segmentId, rels', found');
    }
  }

  /** The search for a target class in the rest of the sentence. */
  method FindTarget(table: Table, rest: string, source: string) returns (target: Option<string>)
    ensures target == FirstTarget(table, rest, source, 0)
  {
    target := None;
    var j := 0;
    while j < |table|
      invariant j <= |table|
      invariant FirstTarget(table, rest, source, 0) == FirstTarget(table, rest, source, j)
    {
      if Contains(rest, table[j].0) && table[j].1 != source {
        target := Some(table[j].1);
        return;
      }
      j := j + 1;
    }
  }

  /** The loop over the matches of the third or fourth pattern. */
  method RecordSubjectVerb(table: Table, tc: string, kind: SubjectVerbKind, segmentId: string,
                           rels: seq<Relation>, found: set<Triple>)
    returns (rels': seq<Relation>, found': set<Triple>)
    ensures (rels', found') == RecordAll(rels, found, SubjectVerbCandidates(table, tc, kind), segmentId)
  {
    var ms := SubjectVerbMatchesFrom(tc, 0, kind);
    ghost var xs := seq(|ms|, k requires 0 <= k < |ms| => SubjectVerbCandidate(table, tc, ms[k]));
    rels', found' := rels, found;
    for k := 0 to |ms|
      invariant (rels', found') == RecordAll(rels, found, Somes(xs[..k]), segmentId)
    {
      SomesSnoc(xs, k);
      var m := ms[k];
      var sourceName := Lookup(table, Strip(m.subject));
      assert xs[k] == SubjectVerbCandidate(table, tc, m);
      if sourceName.Some? && sourceName.value != "" {
        var restOfSentence := tc[m.end..];
        var targetName := FindTarget(table, restOfSentence, sourceName.value);
        if targetName.Some? && targetName.value != "" {
          var c := Candidate(sourceName.value, targetName.value, Strip(m.verb), InferCardinality(tc));
          RecordAllAppend(rels, found, Somes(xs[..k]), [c], segmentId);
          rels', found' := Record(rels', found', c, segmentId);
          continue;
        }
      }
      assert Somes(xs[..k]) + [] == Somes(xs[..k]);
    }
    assert xs[..|ms|] == xs;
  }

  /** The relations collected from the segments, before the pair filter. */
  function CollectedOf(table: Table, segments: seq<Segment>): seq<Relation>
  {
    if segments == [] then []
    else
      var before := CollectedOf(table, segments[..|segments| - 1]);
      var s := segments[|segments| - 1];
      if s.kind == INFO then before
      else RecordAll(before, {}, SegmentCandidates(table, CleanPrefix(Lower(s.text))), s.segmentId).0
  }

  lemma CollectedOfSnoc(table: Table, segments: seq<Segment>, i: nat)
    requires i < |segments|
    ensures CollectedOf(table, segments[..i + 1]) ==
      if segments[i].kind == INFO then CollectedOf(table, segments[..i])
      else RecordAll(CollectedOf(table, segments[..i]), {}, SegmentCandidates(table, CleanPrefix(Lower(segments[i].text))), segments[i].segmentId).0
  {
    assert segments[..i + 1][..i] == segments[..i];
  }

  /** The unordered pair of a relation, `tuple(sorted([source, target]))`. */
  function PairOf(r: Relation): set<string> { {r.source, r.target} }

  /** The pair filter: a relation is kept when no earlier kept one joins
      the same two classes. */
  function KeepFirstPairs(rels: seq<Relation>): seq<Relation>
  {
    if rels == [] then []
    else
      var acc := KeepFirstPairs(rels[..|rels| - 1]);
      var r := rels[|rels| - 1];
      if exists k | 0 <= k < |acc| :: PairOf(acc[k]) == PairOf(r) then acc else acc + [r]
  }

  function PairsOf(rels: seq<Relation>): set<set<string>>
  {
    set k | 0 <= k < |rels| :: PairOf(rels[k])
  }

  lemma PairsOfSnoc(rels: seq<Relation>, r: Relation)
    ensures PairsOf(rels + [r]) == PairsOf(rels) + {PairOf(r)}
  {
    var a := rels + [r];
    assert PairOf(a[|rels|]) in PairsOf(a);
    forall p | p in PairsOf(rels)
      ensures p in PairsOf(a)
    {
      var k :| 0 <= k < |rels| && PairOf(rels[k]) == p;
      assert a[k] == rels[k];
    }
  }

  /** `rels[j]` is the first relation with its pair. */
  predicate FirstOfPair(rels: seq<Relation>, j: nat)
    requires j < |rels|
  {
    forall j' | 0 <= j' < j :: PairOf(rels[j']) != PairOf(rels[j])
  }

  /** The reference definition: the relations among the first `n` that are
      the first with their pair, in their order. */
  function FirstsOfPairs(rels: seq<Relation>, n: nat): seq<Relation>
    requires n <= |rels|
  {
    if n == 0 then []
    else FirstsOfPairs(rels, n - 1) + (if FirstOfPair(rels, n - 1) then [rels[n - 1]] else [])
  }

  /** The pairs of the first `n` relations. */
  function PrefixPairs(rels: seq<Relation>, n: nat): set<set<string>>
    requires n <= |rels|
  {
    set j | 0 <= j < n :: PairOf(rels[j])
  }

  lemma PrefixPairsSnoc(rels: seq<Relation>, n: nat)
    requires 0 < n <= |rels|
    ensures PrefixPairs(rels, n) == PrefixPairs(rels, n - 1) + {PairOf(rels[n - 1])}
  {
    assert PairOf(rels[n - 1]) in PrefixPairs(rels, n);
    forall p | p in PrefixPairs(rels, n - 1)
      ensures p in PrefixPairs(rels, n)
    {
      var j :| 0 <= j < n - 1 && PairOf(rels[j]) == p;
    }
  }

  lemma {:induction false} FirstsOfPairsPairs(rels: seq<Relation>, n: nat)
    requires n <= |rels|
    ensures PairsOf(FirstsOfPairs(rels, n)) == PrefixPairs(rels, n)
  {
    if n > 0 {
      FirstsOfPairsPairs(rels, n - 1);
      PrefixPairsSnoc(rels, n);
      var before := FirstsOfPairs(rels, n - 1);
      if FirstOfPair(rels, n - 1) {
        PairsOfSnoc(before, rels[n - 1]);
      } else {
        var j' :| 0 <= j' < n - 1 && PairOf(rels[j']) == PairOf(rels[n - 1]);
        assert PairOf(rels[j']) in PrefixPairs(rels, n - 1);
        assert FirstsOfPairs(rels, n) == before + [] == before;
      }
    }
  }

  /** The pair filter keeps exactly the relations that are the first with
      their pair, in their order. */
  lemma {:induction false} KeepFirstPairsExact(rels: seq<Relation>, n: nat)
    requires n <= |rels|
    ensures KeepFirstPairs(rels[..n]) == FirstsOfPairs(rels, n)
  {
    if n > 0 {
      KeepFirstPairsExact(rels, n - 1);
      var prefix := rels[..n];
      assert prefix[..n - 1] == rels[..n - 1];
      var acc := FirstsOfPairs(rels, n - 1);
      assert KeepFirstPairs(prefix[..n - 1]) == acc;
      FirstsOfPairsPairs(rels, n - 1);
      var r := rels[n - 1];
      assert prefix[n - 1] == r;
      var seen := exists k | 0 <= k < |acc| :: PairOf(acc[k]) == PairOf(r);
      assert seen <==> PairOf(r) in PairsOf(acc);
      assert seen <==> !FirstOfPair(rels, n - 1);
    }
  }

  /** The kept relations join pairwise different pairs, and every pair of
      the input is kept. */
  lemma {:induction false} KeepFirstPairsSpec(rels: seq<Relation>)
    ensures forall i, j | 0 <= i < j < |KeepFirstPairs(rels)| ::
      PairOf(KeepFirstPairs(rels)[i]) != PairOf(KeepFirstPairs(rels)[j])
    ensures PairsOf(KeepFirstPairs(rels)) == PairsOf(rels)
    ensures forall r | r in KeepFirstPairs(rels) :: r in rels
  {
    if rels != [] {
      var init := rels[..|rels| - 1];
      var r := rels[|rels| - 1];
      KeepFirstPairsSpec(init);
      var acc := KeepFirstPairs(init);
      assert rels == init + [r];
      PairsOfSnoc(init, r);
      assert forall x | x in init :: x in rels;
      if exists k | 0 <= k < |acc| :: PairOf(acc[k]) == PairOf(r) {
        var k :| 0 <= k < |acc| && PairOf(acc[k]) == PairOf(r);
        assert PairOf(acc[k]) in PairsOf(acc);
      } else {
        PairsOfSnoc(acc, r);
        var u := acc + [r];
        forall i, j | 0 <= i < j < |u|
          ensures PairOf(u[i]) != PairOf(u[j])
        {
          if j < |acc| {
            assert u[i] == acc[i] && u[j] == acc[j];
          } else {
            assert u[i] == acc[i];
          }
        }
      }
    }
  }

  /** The global loop over `rels` with `seen_pairs`. */
  method Deduplicate(rels: seq<Relation>) returns (unique: seq<Relation>)
    ensures unique == KeepFirstPairs(rels)
  {
    var seenPairs: set<set<string>> := {};
    unique := [];
    for k := 0 to |rels|
      invariant unique == KeepFirstPairs(rels[..k])
      invariant seenPairs == PairsOf(unique)
    {
      var r := rels[k];
      assert rels[..k + 1][..k] == rels[..k];
      var pair := PairOf(r);
      if pair !in seenPairs {
        assert !exists m | 0 <= m < |unique| :: PairOf(unique[m]) == pair;
        PairsOfSnoc(unique, r);
        seenPairs := seenPairs + {pair};
        unique := unique + [r];
        assert PairOf(unique[|unique| - 1]) == pair;
      } else {
        var m :| 0 <= m < |unique| && PairOf(unique[m]) == pair;
      }
    }
    assert rels[..|rels|] == rels;
  }

  /** `extract_relations`. */
  method ExtractRelations(segments: seq<Segment>, classNames: seq<string>) returns (unique: seq<Relation>)
    ensures unique == KeepFirstPairs(CollectedOf(VariantsOf(classNames), segments))
  {
    var table := BuildVariants(classNames);
    var rels: seq<Relation> := [];
    for i := 0 to |segments|
      invariant rels == CollectedOf(table, segments[..i])
    {
      var s := segments[i];
      CollectedOfSnoc(table, segments, i);
      if s.kind == INFO {
        continue;
      }
      var txtLower := Lower(s.text);
      var txtClean := CleanPrefix(txtLower);
      ghost var before := rels;
      var found: set<Triple> := {};
      ghost var p1 := ModalCandidates(table, txtClean);
      ghost var p2 := BridgeRows(table, txtClean, |table|);
      ghost var p3 := SubjectVerbCandidates(table, txtClean, Able);
      ghost var p4 := SubjectVerbCandidates(table, txtClean, Passive);
      RecordAllAppend(before, {}, p1 + p2 + p3, p4, s.segmentId);
      RecordAllAppend(before, {}, p1 + p2, p3, s.segmentId);
      RecordAllAppend(before, {}, p1, p2, s.segmentId);
      rels, found := RecordModal(table, txtClean, s.segmentId, rels, found);
      rels, found := RecordBridges(table, txtClean, s.segmentId, rels, found);
      rels, found := RecordSubjectVerb(table, txtClean, Able, s.segmentId, rels, found);
      rels, found := RecordSubjectVerb(table, txtClean, Passive, s.segmentId, rels, found);
    }
    assert segments[..|segments|] == segments;
    unique := Deduplicate(rels);
  }

  /** Every collected relation joins two different classes of
      `classNames`, is an association and comes from one kept segment. */
  predicate SoundRelation(r: Relation, classNames: seq<string>, segments: seq<Segment>)
  {
    r.source != r.target && r.source in classNames && r.target in classNames
    && r.relType == "association"
    && exists j | 0 <= j < |segments| :: segments[j].kind != INFO && r.sourceSegments == [segments[j].segmentId]
  }

  lemma SegmentCandidatesGood(table: Table, tc: string)
    ensures forall c | c in SegmentCandidates(table, tc) :: GoodCandidate(table, c)
  {
    ModalCandidatesGood(table, tc);
    BridgeRowsGood(table, tc, |table|);
    SubjectVerbCandidatesGood(table, tc, Able);
    SubjectVerbCandidatesGood(table, tc, Passive);
  }

  lemma SoundWidens(r: Relation, classNames: seq<string>, segments: seq<Segment>, n: nat)
    requires n <= |segments| && SoundRelation(r, classNames, segments[..n])
    ensures SoundRelation(r, classNames, segments)
  {
    var j :| 0 <= j < n && segments[..n][j].kind != INFO && r.sourceSegments == [segments[..n][j].segmentId];
    assert segments[..n][j] == segments[j];
  }

  lemma StepSound(table: Table, classNames: seq<string>, before: seq<Relation>, cs: seq<Candidate>,
                  segments: seq<Segment>, j: nat)
    requires TableOf(table, classNames)
    requires forall c | c in cs :: GoodCandidate(table, c)
    requires forall r | r in before :: SoundRelation(r, classNames, segments)
    requires j < |segments| && segments[j].kind != INFO
    ensures forall r | r in RecordAll(before, {}, cs, segments[j].segmentId).0 :: SoundRelation(r, classNames, segments)
  {
    var id := segments[j].segmentId;
    RecordAllSpec(before, {}, cs, id);
    var after := RecordAll(before, {}, cs, id).0;
    forall k | 0 <= k < |after|
      ensures SoundRelation(after[k], classNames, segments)
    {
      if k < |before| {
        assert after[k] == before[k];
      } else {
        var c :| c in cs && after[k] == ToRelation(c, id);
        assert GoodCandidate(table, c);
      }
    }
  }

  lemma {:induction false} CollectedSound(classNames: seq<string>, segments: seq<Segment>)
    ensures forall r | r in CollectedOf(VariantsOf(classNames), segments) :: SoundRelation(r, classNames, segments)
  {
    if segments != [] {
      CollectedSound(classNames, segments[..|segments| - 1]);
      CollectedStepSound(classNames, segments);
    }
  }

  /** One more segment keeps the collected relations sound. */
  lemma CollectedStepSound(classNames: seq<string>, segments: seq<Segment>)
    requires segments != []
    requires var init := segments[..|segments| - 1];
      forall r | r in CollectedOf(VariantsOf(classNames), init) :: SoundRelation(r, classNames, init)
    ensures forall r | r in CollectedOf(VariantsOf(classNames), segments) :: SoundRelation(r, classNames, segments)
  {
    var table := VariantsOf(classNames);
    var init := segments[..|segments| - 1];
    var s := segments[|segments| - 1];
    var before := CollectedOf(table, init);
    forall r | r in before
      ensures SoundRelation(r, classNames, segments)
    {
      SoundWidens(r, classNames, segments, |segments| - 1);
    }
    if s.kind != INFO {
      var tc := CleanPrefix(Lower(s.text));
      var cs := SegmentCandidates(table, tc);
      assert CollectedOf(table, segments) == RecordAll(before, {}, cs, s.segmentId).0;
      SegmentCandidatesGood(table, tc);
      VariantsSound(classNames);
      StepSound(table, classNames, before, cs, segments, |segments| - 1);
    } else {
      assert CollectedOf(table, segments) == before;
    }
  }

  /** `extract_relations` returns sound relations, at most one per
      unordered pair of classes, and covers every pair it collected. */
  lemma RelationsSound(classNames: seq<string>, segments: seq<Segment>)
    ensures var rels := KeepFirstPairs(CollectedOf(VariantsOf(classNames), segments));
      && (forall r | r in rels :: SoundRelation(r, classNames, segments))
      && (forall i, j | 0 <= i < j < |rels| :: PairOf(rels[i]) != PairOf(rels[j]))
      && PairsOf(rels) == PairsOf(CollectedOf(VariantsOf(classNames), segments))
  {
    CollectedSound(classNames, segments);
    KeepFirstPairsSpec(CollectedOf(VariantsOf(classNames), segments));
  }
}
