/** Class discovery (`extract_candidate_classes`, app/extract.py): a DEF
    line names its class after "DEF A/An/The"; a REQ or CON line
    contributes every word introduced by an article. Every name is
    normalized and must pass the gate. */
module ClassExtraction {
  import opened Text
  import opened Filter
  import opened Concepts

  const DefArticles: seq<string> := ["A", "An", "The"]
  const EntityArticles: seq<string> := ["a", "an", "the", "each", "every"]

  /** The group `[A-Z][a-zA-Z]+`. */
  predicate IsClassWord(g: string)
  {
    |g| >= 2 && IsUpper(g[0]) && forall k | 0 <= k < |g| :: IsLetter(g[k])
  }

  /** `[A-Z][a-zA-Z]+` at `q`, greedy: its end. */
  function CapitalizedWordEnd(s: string, q: nat): (r: Option<nat>)
    requires q <= |s|
    ensures r.Some? ==>
      q + 2 <= r.value <= |s| && IsUpper(s[q]) && (forall k | q <= k < r.value :: IsLetter(s[k]))
  {
    if q < |s| && IsUpper(s[q]) && Span(s, q + 1, Letters) > q + 1 then Some(Span(s, q + 1, Letters)) else None
  }

  /** `(?:A|An|The)\s+([A-Z][a-zA-Z]+)` at `p`, alternatives in order. */
  function DefArticleClass(s: string, p: nat, articles: seq<string>): (r: Option<string>)
    requires p <= |s|
    ensures r.Some? ==> IsClassWord(r.value)
    decreases |articles|
  {
    if articles == [] then None
    else
      var a := articles[0];
      var q := if At(s, p, a) then Span(s, p + |a|, Spaces) else p;
      if At(s, p, a) && q > p + |a| && CapitalizedWordEnd(s, q).Some? then
        Some(s[q..CapitalizedWordEnd(s, q).value])
      else DefArticleClass(s, p, articles[1..])
  }

  /** `DEF\s+(?:A|An|The)\s+([A-Z][a-zA-Z]+)` tried at `i`. */
  function DefClassAt(s: string, i: nat): (r: Option<string>)
    requires i <= |s|
    ensures r.Some? ==> IsClassWord(r.value)
  {
    if At(s, i, "DEF") && Span(s, i + 3, Spaces) > i + 3 then DefArticleClass(s, Span(s, i + 3, Spaces), DefArticles)
    else None
  }

  /** `re.search` of the DEF pattern from index `i`: the class word of the
      leftmost match. The search is case-sensitive. */
  function DefClassFrom(s: string, i: nat): (r: Option<string>)
    requires i <= |s|
    ensures r.Some? ==> IsClassWord(r.value)
    decreases |s| - i
  {
    if DefClassAt(s, i).Some? then DefClassAt(s, i)
    else if i == |s| then None
    else DefClassFrom(s, i + 1)
  }

  /** The group `[a-z][a-z]+(?:[A-Z][a-z]+)?` of an entity match. */
  predicate IsEntityWord(g: string)
  {
    var r := Span(g, 0, Lowers);
    r >= 2 && (r == |g| || (IsUpper(g[r]) && r + 1 < |g| && Span(g, r + 1, Lowers) == |g|))
  }

  /** `(?:a|an|the|each|every)\s+([a-z][a-z]+(?:[A-Z][a-z]+)?)\b` at `i`,
      alternatives in order: the group and the end of the match. */
  function EntityArticle(s: string, i: nat, articles: seq<string>): (r: Option<(string, nat)>)
    requires i <= |s|
    ensures r.Some? ==> i < r.value.1 <= |s| && IsEntityWord(r.value.0)
    decreases |articles|
  {
    if articles == [] then None
    else
      var a := articles[0];
      var q := if At(s, i, a) then Span(s, i + |a|, Spaces) else i;
      var w := if At(s, i, a) && q > i + |a| then EntityWordEnd(s, q) else None;
      if w.Some? then Some((s[q..w.value], w.value)) else EntityArticle(s, i, articles[1..])
  }

  /** `([a-z][a-z]+(?:[A-Z][a-z]+)?)\b` at `q`: the end of the group. When
      the optional part is followed by a word character no shorter match
      ends at a word boundary either, so there is none. */
  function EntityWordEnd(s: string, q: nat): (e: Option<nat>)
    requires q <= |s|
    ensures e.Some? ==> q + 2 <= e.value <= |s| && IsEntityWord(s[q..e.value])
  {
    var r := Span(s, q, Lowers);
    if r < q + 2 then None
    else if r + 1 < |s| && IsUpper(s[r]) && IsLower(s[r + 1]) then
      var r2 := Span(s, r + 1, Lowers);
      if r2 == |s| || !IsWordChar(s[r2]) then
        assert Span(s[q..r2], 0, Lowers) == r - q by { SpanSlice(s, q, r2, q, r, Lowers); }
        assert Span(s[q..r2], r - q + 1, Lowers) == r2 - q by { SpanSlice(s, q, r2, r + 1, r2, Lowers); }
        Some(r2)
      else None
    else if r == |s| || !IsWordChar(s[r]) then
      assert Span(s[q..r], 0, Lowers) == r - q by { SpanSlice(s, q, r, q, r, Lowers); }
      Some(r)
    else None
  }

  /** A run of class `k` read inside a slice ends where it ends in the
      whole string, or at the end of the slice. */
  lemma SpanSlice(s: string, a: nat, b: nat, st: nat, e: nat, k: CharClass)
    requires a <= st <= e <= b <= |s|
    requires forall m | st <= m < e :: In(s[m], k)
    requires e == b || !In(s[e], k)
    ensures forall j | st - a <= j <= e - a :: Span(s[a..b], j, k) == e - a
  {
  }

  /** `re.findall` of the entity pattern on `s` from index `i`: the groups of
      successive non-overlapping matches, each search resuming where the
      previous match ended. */
  function EntityMatchesFrom(s: string, i: nat): (es: seq<string>)
    requires i <= |s|
    ensures forall k | 0 <= k < |es| :: IsEntityWord(es[k])
    decreases |s| - i
  {
    var m := if Boundary(s, i) then EntityArticle(s, i, EntityArticles) else None;
    if m.Some? then [m.value.0] + EntityMatchesFrom(s, m.value.1)
    else if i == |s| then []
    else EntityMatchesFrom(s, i + 1)
  }

  /** The entities of a REQ or CON line that become class names, in order:
      normalized, passing the gate, and longer than three characters as
      written. */
  function GateEntities(es: seq<string>): seq<string>
  {
    if es == [] then []
    else
      var e := es[|es| - 1];
      var c := NormalizeClassName(e);
      GateEntities(es[..|es| - 1]) + (if OkConcept(c) && |e| > 3 then [c] else [])
  }

  /** The class names one segment contributes, in the order they are added. */
  function SegmentClassNames(s: Segment): seq<string>
  {
    if s.kind == INFO then []
    else if s.kind == DEF then
      match DefClassFrom(s.text, 0)
      case Some(g) => if OkConcept(NormalizeClassName(g)) then [NormalizeClassName(g)] else []
      case None => []
    else GateEntities(EntityMatchesFrom(s.text, 0))
  }

  /** Every gated entity passes the gate and is the normal form of an
      entity longer than three characters. */
  lemma {:induction false} GateEntitiesSound(es: seq<string>)
    ensures forall k | 0 <= k < |GateEntities(es)| ::
      OkConcept(GateEntities(es)[k]) && exists e | e in es :: |e| > 3 && NormalizeClassName(e) == GateEntities(es)[k]
  {
    if es != [] {
      var init := es[..|es| - 1];
      var e := es[|es| - 1];
      GateEntitiesSound(init);
      var g := GateEntities(init);
      var r := GateEntities(es);
      assert r == g + (if OkConcept(NormalizeClassName(e)) && |e| > 3 then [NormalizeClassName(e)] else []);
      forall k | 0 <= k < |r|
        ensures OkConcept(r[k]) && exists e' | e' in es :: |e'| > 3 && NormalizeClassName(e') == r[k]
      {
        if k < |g| {
          assert r[k] == g[k];
          var e' :| e' in init && |e'| > 3 && NormalizeClassName(e') == g[k];
          assert e' in es;
        } else {
          assert r[k] == NormalizeClassName(e) && e in es;
        }
      }
    }
  }

  /** A segment contributes only accepted names, and an INFO segment none. */
  lemma SegmentClassNamesSound(s: Segment)
    ensures forall k | 0 <= k < |SegmentClassNames(s)| :: OkConcept(SegmentClassNames(s)[k])
    ensures SegmentClassNames(s) != [] ==> s.kind != INFO
  {
    if s.kind == REQ || s.kind == CON {
      GateEntitiesSound(EntityMatchesFrom(s.text, 0));
    }
  }

  /** `classes.setdefault(name, set()).add(id)`. */
  function AddName(m: map<string, set<string>>, name: string, id: string): map<string, set<string>>
  {
    m[name := (if name in m then m[name] else {}) + {id}]
  }

  function AddNames(m: map<string, set<string>>, names: seq<string>, id: string): map<string, set<string>>
  {
    if names == [] then m else AddName(AddNames(m, names[..|names| - 1], id), names[|names| - 1], id)
  }

  /** The map built from (segment id, names) contributions taken in order. */
  function Collect(cs: seq<(string, seq<string>)>): map<string, set<string>>
  {
    if cs == [] then map[] else AddNames(Collect(cs[..|cs| - 1]), cs[|cs| - 1].1, cs[|cs| - 1].0)
  }

  /** What each segment contributes. */
  function Contributions(segments: seq<Segment>): (cs: seq<(string, seq<string>)>)
    ensures |cs| == |segments|
    ensures forall j | 0 <= j < |segments| :: cs[j] == (segments[j].segmentId, SegmentClassNames(segments[j]))
  {
    seq(|segments|, j requires 0 <= j < |segments| => (segments[j].segmentId, SegmentClassNames(segments[j])))
  }

  /** The class map the loop over `segments` builds. */
  function ClassMapOf(segments: seq<Segment>): map<string, set<string>>
  {
    Collect(Contributions(segments))
  }

  /** One more segment adds its names under its id. */
  lemma ClassMapStep(segments: seq<Segment>, i: nat)
    requires i < |segments|
    ensures ClassMapOf(segments[..i + 1])
      == AddNames(ClassMapOf(segments[..i]), SegmentClassNames(segments[i]), segments[i].segmentId)
  {
    var cs := Contributions(segments[..i + 1]);
    var ds := Contributions(segments[..i]);
    forall k | 0 <= k < i
      ensures cs[k] == ds[k]
    {
      assert segments[..i + 1][k] == segments[..i][k];
    }
    assert cs[..i] == ds;
    assert cs[i] == (segments[i].segmentId, SegmentClassNames(segments[i]));
  }

  lemma GateEntitiesSnoc(es: seq<string>, e: string)
    ensures GateEntities(es + [e])
      == GateEntities(es) + (if OkConcept(NormalizeClassName(e)) && |e| > 3 then [NormalizeClassName(e)] else [])
  {
    assert (es + [e])[..|es|] == es;
  }

  lemma AddNamesSnoc(m: map<string, set<string>>, names: seq<string>, name: string, id: string)
    ensures AddNames(m, names + [name], id) == AddName(AddNames(m, names, id), name, id)
  {
    assert (names + [name])[..|names|] == names;
  }

  /** The inner loop of `extract_candidate_classes` over the entities of a
      REQ or CON line: each accepted entity is added under the line's id. */
  method RecordEntities(before: map<string, set<string>>, entities: seq<string>, segmentId: string)
    returns (classes: map<string, set<string>>)
    ensures classes == AddNames(before, GateEntities(entities), segmentId)
  {
    classes := before;
    for j := 0 to |entities|
      invariant classes == AddNames(before, GateEntities(entities[..j]), segmentId)
    {
      RecordEntityStep(before, entities, j, segmentId);
      classes := RecordEntity(classes, entities[j], segmentId);
    }
    assert entities[..|entities|] == entities;
  }

  /** The body of that loop: one entity, normalized and gated. */
  method RecordEntity(classes: map<string, set<string>>, entity: string, segmentId: string)
    returns (result: map<string, set<string>>)
    ensures var c := NormalizeClassName(entity);
      result == if OkConcept(c) && |entity| > 3 then AddName(classes, c, segmentId) else classes
  {
    var className := NormalizeClassName(entity);
    result := classes;
    if OkConcept(className) && |entity| > 3 {
      result := classes[className := (if className in classes then classes[className] else {}) + {segmentId}];
    }
  }

  /** One entity more: it is added when it passes the gate. */
  lemma RecordEntityStep(before: map<string, set<string>>, entities: seq<string>, j: nat, segmentId: string)
    requires j < |entities|
    ensures var e := entities[j];
      var c := NormalizeClassName(e);
      var m := AddNames(before, GateEntities(entities[..j]), segmentId);
      AddNames(before, GateEntities(entities[..j + 1]), segmentId) ==
        if OkConcept(c) && |e| > 3 then AddName(m, c, segmentId) else m
  {
    var e := entities[j];
    var c := NormalizeClassName(e);
    assert entities[..j + 1] == entities[..j] + [e];
    GateEntitiesSnoc(entities[..j], e);
    if OkConcept(c) && |e| > 3 {
      AddNamesSnoc(before, GateEntities(entities[..j]), c, segmentId);
    } else {
      assert GateEntities(entities[..j]) + [] == GateEntities(entities[..j]);
    }
  }

  /** `extract_candidate_classes`. */
  method ExtractCandidateClasses(segments: seq<Segment>) returns (classes: map<string, set<string>>)
    ensures classes == ClassMapOf(segments)
  {
    classes := map[];
    for i := 0 to |segments|
      invariant classes == ClassMapOf(segments[..i])
    {
      var s := segments[i];
      ClassMapStep(segments, i);
      if s.kind == INFO {
        assert SegmentClassNames(s) == [];
        continue;
      }
      if s.kind == DEF {
        var defMatch := DefClassFrom(s.text, 0);
        if defMatch.Some? {
          var className := NormalizeClassName(defMatch.value);
          if OkConcept(className) {
            classes := classes[className := (if className in classes then classes[className] else {}) + {s.segmentId}];
            assert SegmentClassNames(s) == [className];
            assert [className][..0] == [];
            continue;
          }
        }
      }
      if s.kind == REQ || s.kind == CON {
        var entities := EntityMatchesFrom(s.text, 0);
        classes := RecordEntities(classes, entities, s.segmentId);
        assert SegmentClassNames(s) == GateEntities(entities);
      } else {
        assert SegmentClassNames(s) == [];
      }
    }
    assert segments[..|segments|] == segments;
  }

  /** Adding names under one id: the new keys are the names, and each name
      gains exactly that id. */
  lemma {:induction false} AddNamesExact(m: map<string, set<string>>, names: seq<string>, id: string)
    ensures forall k :: k in AddNames(m, names, id) <==> k in m || k in names
    ensures forall k | k in AddNames(m, names, id) ::
      AddNames(m, names, id)[k] == (if k in m then m[k] else {}) + (if k in names then {id} else {})
    decreases |names|
  {
    if names != [] {
      var init := names[..|names| - 1];
      AddNamesExact(m, init, id);
      assert forall k :: k in names <==> k in init || k == names[|names| - 1];
    }
  }

  /** The collected map records an id under a name exactly when some
      contribution with that id holds the name. */
  lemma {:induction false} CollectExact(cs: seq<(string, seq<string>)>)
    ensures forall k :: k in Collect(cs) <==> exists j | 0 <= j < |cs| :: k in cs[j].1
    ensures forall k, id | k in Collect(cs) :: id in Collect(cs)[k] <==>
      exists j | 0 <= j < |cs| :: cs[j].0 == id && k in cs[j].1
  {
    if cs != [] {
      var init := cs[..|cs| - 1];
      CollectExact(init);
      AddNamesExact(Collect(init), cs[|cs| - 1].1, cs[|cs| - 1].0);
      assert forall j | 0 <= j < |init| :: init[j] == cs[j];
    }
  }

  /** The class map records a segment id under a name exactly when that
      segment contributes the name; a name is a key exactly when some
      segment contributes it. */
  lemma ClassMapExact(segments: seq<Segment>)
    ensures forall k :: k in ClassMapOf(segments) <==>
      exists j | 0 <= j < |segments| :: k in SegmentClassNames(segments[j])
    ensures forall k, id | k in ClassMapOf(segments) :: id in ClassMapOf(segments)[k] <==>
      exists j | 0 <= j < |segments| :: segments[j].segmentId == id && k in SegmentClassNames(segments[j])
  {
    CollectExact(Contributions(segments));
  }

  /** Every key of the class map passes the gate, and every id recorded
      under it belongs to a non-INFO segment of the input. */
  lemma ClassMapKeysAccepted(segments: seq<Segment>)
    ensures forall k | k in ClassMapOf(segments) :: OkConcept(k)
    ensures forall k, id | k in ClassMapOf(segments) && id in ClassMapOf(segments)[k] ::
      exists j | 0 <= j < |segments| :: segments[j].segmentId == id && segments[j].kind != INFO
  {
    ClassMapExact(segments);
    forall k | k in ClassMapOf(segments)
      ensures OkConcept(k)
    {
      var j :| 0 <= j < |segments| && k in SegmentClassNames(segments[j]);
      SegmentClassNamesSound(segments[j]);
    }
    forall k, id | k in ClassMapOf(segments) && id in ClassMapOf(segments)[k]
      ensures exists j | 0 <= j < |segments| :: segments[j].segmentId == id && segments[j].kind != INFO
    {
      var j :| 0 <= j < |segments| && segments[j].segmentId == id && k in SegmentClassNames(segments[j]);
      SegmentClassNamesSound(segments[j]);
    }
  }

  /** `_ok_concept(class_name) and len(entity) > 3`. */
  predicate Admitted(e: string) { OkConcept(NormalizeClassName(e)) && |e| > 3 }

  /** `n` is the normal form of an admitted entity of `es`. */
  predicate GatedFrom(es: seq<string>, n: string)
  {
    exists k | 0 <= k < |es| :: Admitted(es[k]) && NormalizeClassName(es[k]) == n
  }

  /** A name is gated exactly when it is the normal form of an entity
      longer than three characters whose normal form passes the gate. */
  lemma {:induction false} GateEntitiesExact(es: seq<string>)
    ensures forall n :: n in GateEntities(es) <==> GatedFrom(es, n)
  {
    if es != [] {
      var init := es[..|es| - 1];
      var e := es[|es| - 1];
      GateEntitiesExact(init);
      assert es == init + [e];
      GateEntitiesSnoc(init, e);
      forall n
        ensures n in GateEntities(es) <==> GatedFrom(es, n)
      {
        GatedFromSnoc(init, e, n);
      }
    }
  }

  lemma GatedFromSnoc(init: seq<string>, e: string, n: string)
    ensures GatedFrom(init + [e], n) <==> GatedFrom(init, n) || (Admitted(e) && NormalizeClassName(e) == n)
  {
    if GatedFrom(init, n) {
      GatedFromInit(init, e, n);
    }
    if GatedFrom(init + [e], n) {
      GatedFromBack(init, e, n);
    }
    if Admitted(e) && NormalizeClassName(e) == n {
      assert (init + [e])[|init|] == e;
    }
  }

  lemma GatedFromInit(init: seq<string>, e: string, n: string)
    requires GatedFrom(init, n)
    ensures GatedFrom(init + [e], n)
  {
    var k :| 0 <= k < |init| && Admitted(init[k]) && NormalizeClassName(init[k]) == n;
    assert (init + [e])[k] == init[k];
  }

  lemma GatedFromBack(init: seq<string>, e: string, n: string)
    requires GatedFrom(init + [e], n)
    ensures GatedFrom(init, n) || (Admitted(e) && NormalizeClassName(e) == n)
  {
    var es := init + [e];
    var k :| 0 <= k < |es| && Admitted(es[k]) && NormalizeClassName(es[k]) == n;
    if k < |init| {
      assert es[k] == init[k];
    }
  }

  /** A REQ or CON line contributes exactly the normal forms of its entity
      captures that are longer than three characters and pass the gate. */
  lemma RequirementLineNames(s: Segment)
    requires s.kind == REQ || s.kind == CON
    ensures forall n :: n in SegmentClassNames(s) <==> GatedFrom(EntityMatchesFrom(s.text, 0), n)
  {
    GateEntitiesExact(EntityMatchesFrom(s.text, 0));
  }

  /** A DEF line contributes at most one name: its DEF-pattern class word,
      normalized. */
  lemma DefLineContributesOne(s: Segment)
    requires s.kind == DEF
    ensures |SegmentClassNames(s)| <= 1
    ensures SegmentClassNames(s) != [] ==>
      DefClassFrom(s.text, 0).Some? && SegmentClassNames(s) == [NormalizeClassName(DefClassFrom(s.text, 0).value)]
  {
  }
}
