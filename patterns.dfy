/** The four relation patterns of `extract_relations` (app/extract.py) as
    scanners over the lowered segment text, the prefix clean-up before them
    and `_infer_cardinality`. Each scanner follows the order in which
    Python's backtracking engine tries the alternatives, so that the match
    it returns is the one `re.finditer` or `re.search` reports. `.` is taken
    to match every character: segment texts hold no line break. */
module RelationPatterns {
  import opened Text

  /** `re.sub(r"^\s*(req|fr|nfr|us|def)\s*[-:]?\s*\d+\s+", "", l)`. */
  const IdTokens: seq<string> := ["req", "fr", "nfr", "us", "def"]

  function CleanPrefix(l: string): (r: string)
    ensures exists k | 0 <= k <= |l| :: r == l[k..]
  {
    var a := Span(l, 0, Spaces);
    match RequirementIdEnd(l, a, IdTokens)
    case Some(e) =>
      if e <= |l| && Span(l, e, Spaces) > e then
        assert l[Span(l, e, Spaces)..] == l[Span(l, e, Spaces)..];
        l[Span(l, e, Spaces)..]
      else
        assert l == l[0..];
        l
    case None =>
      assert l == l[0..];
      l
  }

  /** A text without the requirement-id prefix is left as it is. */
  lemma CleanPrefixKeepsPlainText(l: string)
    requires RequirementIdEnd(l, Span(l, 0, Spaces), IdTokens).None?
    ensures CleanPrefix(l) == l
  {
  }

  /** The articles that open a pattern; none of them is a prefix of another
      that whitespace could follow, so at most one fits at an index. */
  const SubjectArticles: seq<string> := ["each", "every", "a", "an", "the"]
  const AbleArticles: seq<string> := ["a", "an", "the"]

  /** The first article of `arts` at `i` that whitespace follows: the index
      just after it. No `\b` comes before it, so "data" holds an "a". */
  function ArticleEnd(t: string, i: nat, arts: seq<string>): (r: Option<nat>)
    requires i <= |t|
    ensures r.Some? ==> i < r.value < |t| && IsSpace(t[r.value])
    decreases |arts|
  {
    if arts == [] then None
    else if |arts[0]| > 0 && At(t, i, arts[0]) && i + |arts[0]| < |t| && IsSpace(t[i + |arts[0]|]) then Some(i + |arts[0]|)
    else ArticleEnd(t, i, arts[1..])
  }

  /** The words that can close the object of the first pattern. */
  const Joiners: seq<string> := ["and", "or", "to", "for", "with"]

  /** The first word of `ws` at `s`: the index after it. */
  function WordEnd(t: string, s: nat, ws: seq<string>): (r: Option<nat>)
    requires s <= |t|
    ensures r.Some? ==> s <= r.value <= |t|
    decreases |ws|
  {
    if ws == [] then None
    else if At(t, s, ws[0]) then Some(s + |ws[0]|)
    else WordEnd(t, s, ws[1..])
  }

  /** `(?:\s+(?:and|or|to|for|with)|\.|,|$)` at `q`: the end of the
      terminator. The joiner has no `\b` after it, so "orders" starts with
      "or". */
  function TerminatorEnd(t: string, q: nat): (r: Option<nat>)
    requires q <= |t|
    ensures r.Some? ==> q <= r.value <= |t|
  {
    var s := Span(t, q, Spaces);
    if s > q && WordEnd(t, s, Joiners).Some? then WordEnd(t, s, Joiners)
    else if q < |t| && t[q] == '.' then Some(q + 1)
    else if q < |t| && t[q] == ',' then Some(q + 1)
    else if q == |t| then Some(q)
    else None
  }

  /** `([\w\s]+?)` followed by the terminator, the group running from `p`
      and the lazy end tried from `q` on: the group's end and the match
      end. */
  function ObjectEnd(t: string, p: nat, q: nat): (r: Option<(nat, nat)>)
    requires p < q <= |t|
    ensures r.Some? ==> q <= r.value.0 <= r.value.1 <= |t|
    decreases |t| - q
  {
    if q > Span(t, p, WordOrSpace) then None
    else if TerminatorEnd(t, q).Some? then Some((q, TerminatorEnd(t, q).value))
    else if q == |t| then None
    else ObjectEnd(t, p, q + 1)
  }

  /** `.*?\b([\w\s]+?)(?:terminator)` from `p`: the object's bounds and the
      match end. */
  function ObjectFrom(t: string, p: nat): (r: Option<(nat, nat, nat)>)
    requires p <= |t|
    ensures r.Some? ==> p <= r.value.0 < r.value.1 <= r.value.2 <= |t|
    decreases |t| - p
  {
    if p < |t| && Boundary(t, p) && In(t[p], WordOrSpace) && ObjectEnd(t, p, p + 1).Some? then
      Some((p, ObjectEnd(t, p, p + 1).value.0, ObjectEnd(t, p, p + 1).value.1))
    else if p == |t| then None
    else ObjectFrom(t, p + 1)
  }

  /** What the first pattern matches after its subject group, which ends at
      `g`: `\s+(?:must|shall)\s+(\w+)\s+` and the object. The verb's bounds,
      the object's bounds and the match end. */
  datatype Rest = Rest(verbStart: nat, verbEnd: nat, objectStart: nat, objectEnd: nat, end: nat)

  function ModalRest(t: string, g: nat): (r: Option<Rest>)
    requires g <= |t|
    ensures r.Some? ==>
      g < r.value.verbStart < r.value.verbEnd < r.value.objectStart < r.value.objectEnd <= r.value.end <= |t|
  {
    var g2 := Span(t, g, Spaces);
    var m := if At(t, g2, "must") then g2 + 4 else if At(t, g2, "shall") then g2 + 5 else g2;
    if g2 == g || m == g2 || m > |t| then None
    else
      var v1 := Span(t, m, Spaces);
      var v2 := Span(t, v1, WordChars);
      var v3 := Span(t, v2, Spaces);
      if v1 == m || v2 == v1 || v3 == v2 then None
      else
        match ObjectFrom(t, v3)
        case None => None
        case Some((p, q, e)) => Some(Rest(v1, v2, p, q, e))
  }

  /** The lazy subject group `([\w\s]+?)` from `w0`: the first end `g`
      inside the word-or-space run after which the rest matches. */
  function SubjectEnd(t: string, w0: nat, g: nat): (r: Option<nat>)
    requires w0 < g <= |t|
    ensures r.Some? ==> g <= r.value <= |t| && ModalRest(t, r.value).Some?
    decreases |t| - g
  {
    if g > Span(t, w0, WordOrSpace) then None
    else if ModalRest(t, g).Some? then Some(g)
    else if g == |t| then None
    else SubjectEnd(t, w0, g + 1)
  }

  /** One match of the first pattern: the subject and object groups, the
      verb, the whole matched text and its end. */
  datatype ModalMatch = ModalMatch(subject: string, verb: string, objectPart: string, text: string, end: nat)

  /** `(?:each|every|a|an|the)\s+([\w\s]+?)\s+(?:must|shall)\s+(\w+)\s+.*?\b([\w\s]+?)(?:\s+(?:and|or|to|for|with)|\.|,|$)`
      tried at `i`. The subject starts after all the blanks that follow the
      article; only when no end works from there does `\s+` give blanks
      back, and then the only way left is a subject of one blank, which
      needs three blanks or more before `must` or `shall`. */
  function ModalMatchAt(t: string, i: nat): (r: Option<ModalMatch>)
    requires i <= |t|
    ensures r.Some? ==> i < r.value.end <= |t|
  {
    match ArticleEnd(t, i, SubjectArticles)
    case None => None
    case Some(ae) =>
      var w0 := Span(t, ae, Spaces);
      var first := if w0 < |t| then SubjectEnd(t, w0, w0 + 1) else None;
      if first.Some? then
        var g := first.value;
        var rest := ModalRest(t, g).value;
        Some(ModalMatch(t[w0..g], t[rest.verbStart..rest.verbEnd], t[rest.objectStart..rest.objectEnd], t[i..rest.end], rest.end))
      else if w0 >= ae + 3 && ModalRest(t, w0 - 1).Some? then
        var rest := ModalRest(t, w0 - 1).value;
        Some(ModalMatch(t[w0 - 2..w0 - 1], t[rest.verbStart..rest.verbEnd], t[rest.objectStart..rest.objectEnd], t[i..rest.end], rest.end))
      else None
  }

  /** `re.finditer` of the first pattern from `i`: each search resumes where
      the previous match ended. */
  function ModalMatchesFrom(t: string, i: nat): (r: seq<ModalMatch>)
    requires i <= |t|
    ensures forall k | 0 <= k < |r| :: i < r[k].end <= |t|
    decreases |t| - i
  {
    var here := ModalMatchAt(t, i);
    if here.Some? then
      var rest := ModalMatchesFrom(t, here.value.end);
      assert forall k | 0 < k <= |rest| :: ([here.value] + rest)[k] == rest[k - 1];
      [here.value] + rest
    else if i == |t| then []
    else ModalMatchesFrom(t, i + 1)
  }

  /** Successive matches do not overlap and come in text order. */
  lemma {:induction false} ModalMatchesOrdered(t: string, i: nat)
    requires i <= |t|
    ensures forall k | 0 < k < |ModalMatchesFrom(t, i)| ::
      ModalMatchesFrom(t, i)[k - 1].end < ModalMatchesFrom(t, i)[k].end
    decreases |t| - i
  {
    if ModalMatchAt(t, i).Some? {
      var m := ModalMatchAt(t, i).value;
      ModalMatchesOrdered(t, m.end);
      var r := ModalMatchesFrom(t, i);
      forall k | 0 < k < |r|
        ensures r[k - 1].end < r[k].end
      {
        assert r[k] == ModalMatchesFrom(t, m.end)[k - 1];
        if k > 1 {
          assert r[k - 1] == ModalMatchesFrom(t, m.end)[k - 2];
        }
      }
    } else if i < |t| {
      ModalMatchesOrdered(t, i + 1);
    }
  }

  /** `re.sub(r'^(a|an|the|one|more|exactly|zero|multiple)\s+', '', target_raw).strip()`;
      the text is already lower case, so comparing lowered text is the
      same. */
  const ObjectQuantifiers: seq<string> := ["a", "an", "the", "one", "more", "exactly", "zero", "multiple"]

  function ObjectName(raw: string): string
  {
    var s := Strip(raw);
    Strip(DropLeadingWord(s, 0, ObjectQuantifiers))
  }

  /** Maximal word runs inside `l[b..c]`. */
  function WordRuns(l: string, b: nat, c: nat): nat
    requires b <= c <= |l|
    decreases c - b
  {
    if c == b then 0
    else WordRuns(l, b, c - 1) + (if IsWordChar(l[c - 1]) && (c - 1 == b || !IsWordChar(l[c - 2])) then 1 else 0)
  }

  /** `l[b..c]` matches `(?:\W+\w+){0,k}\W+` (equivalently
      `\W+(?:\w+\W+){0,k}`): it starts and ends with a non-word character
      and holds at most `k` word runs. */
  predicate Gap(l: string, b: nat, c: nat, k: nat)
  {
    b < c <= |l| && !IsWordChar(l[b]) && !IsWordChar(l[c - 1]) && WordRuns(l, b, c) <= k
  }

  /** `re.search(rf"\b{sv}\b(?:\W+\w+){{0,8}}\W+{verb}\W+(?:\w+\W+){{0,6}}\b{tv}\b", l)`:
      the source variant as a word, at most eight words, the verb between
      non-word characters, at most six words, and the target variant as a
      word. */
  predicate Bridge(l: string, sv: string, verb: string, tv: string)
  {
    exists a, c, d | 0 <= a <= |l| && 0 <= c <= |l| && 0 <= d <= |l| ::
      WordOccursAt(l, sv, a) && Gap(l, a + |sv|, c, 8) && At(l, c, verb)
      && Gap(l, c + |verb|, d, 6) && WordOccursAt(l, tv, d)
  }

  /** The verb must be flanked by non-word characters, so "placed" does
      not bridge as "place". */
  lemma BridgeVerbIsWord(l: string, sv: string, verb: string, tv: string)
    requires Bridge(l, sv, verb, tv) && |verb| > 0
    ensures exists c | 0 < c && c + |verb| < |l| ::
      At(l, c, verb) && !IsWordChar(l[c - 1]) && !IsWordChar(l[c + |verb|])
  {
    var a, c, d :| 0 <= a <= |l| && 0 <= c <= |l| && 0 <= d <= |l| &&
      WordOccursAt(l, sv, a) && Gap(l, a + |sv|, c, 8) && At(l, c, verb)
      && Gap(l, c + |verb|, d, 6) && WordOccursAt(l, tv, d);
    assert 0 < c && c + |verb| < |l|;
  }

  /** The third and the fourth pattern: a subject word and a verb word. */
  datatype SubjectVerbKind =
    | Able    // `(?:a|an|the)\s+([\w]+)\s+shall be able to\s+([\w]+)`
    | Passive // `(?:each|every|a|an|the)\s+([\w]+)\s+must be\s+([\w]+)\s+to`

  datatype SubjectVerbMatch = SubjectVerbMatch(subject: string, verb: string, end: nat)

  /** The third or fourth pattern tried at `i`; every quantifier in them can
      only match greedily here, so there is one way to match or none. The
      result holds the bounds of the subject, those of the verb, and the end
      of the match. */
  function SubjectVerbBounds(t: string, i: nat, kind: SubjectVerbKind): (r: Option<(nat, nat, nat, nat, nat)>)
    requires i <= |t|
    ensures r.Some? ==> var (a, b, c, d, e) := r.value;
      && a < b <= c < d <= e <= |t| && i < e
      && WordCharsIn(t, a, b) && WordCharsIn(t, c, d)
  {
    var arts := if kind == Able then AbleArticles else SubjectArticles;
    match ArticleEnd(t, i, arts)
    case None => None
    case Some(ae) =>
      match SubjectBounds(t, ae)
      case None => None
      case Some((a, b, p)) =>
        match VerbBounds(t, p, kind)
        case None => None
        case Some((c, d, e)) => Some((a, b, c, d, e))
  }

  /** Every character of `t[a..b]` is a word character. */
  predicate WordCharsIn(t: string, a: nat, b: nat)
    requires a <= b <= |t|
  {
    forall m | a <= m < b :: In(t[m], WordChars)
  }

  /** `\s+([\w]+)\s+` from `q`: the bounds of the subject word and the
      index after the blanks that follow it. */
  function SubjectBounds(t: string, q: nat): (r: Option<(nat, nat, nat)>)
    requires q <= |t|
    ensures r.Some? ==> var (a, b, p) := r.value;
      && q <= a < b < p <= |t|
      && WordCharsIn(t, a, b)
  {
    var w0 := Span(t, q, Spaces);
    var w1 := Span(t, w0, WordChars);
    var w2 := Span(t, w1, Spaces);
    if w1 == w0 || w2 == w1 then None else Some((w0, w1, w2))
  }

  /** From `p`: the phrase ("shall be able to" or "must be"), blanks, the
      verb word and, for the fourth pattern, blanks and "to". The result
      holds the bounds of the verb and the end of the match. */
  function VerbBounds(t: string, p: nat, kind: SubjectVerbKind): (r: Option<(nat, nat, nat)>)
    requires p <= |t|
    ensures r.Some? ==> var (c, d, e) := r.value;
      && p < c < d <= e <= |t|
      && WordCharsIn(t, c, d)
  {
    var phrase := if kind == Able then "shall be able to" else "must be";
    if !At(t, p, phrase) then None
    else
      var w3 := Span(t, p + |phrase|, Spaces);
      var w4 := Span(t, w3, WordChars);
      if w3 == p + |phrase| || w4 == w3 then None
      else if kind == Able then Some((w3, w4, w4))
      else
        var w5 := Span(t, w4, Spaces);
        if w5 == w4 || !At(t, w5, "to") then None
        else Some((w3, w4, w5 + 2))
  }

  /** The match of the third or fourth pattern at `i`: its two groups and
      where it ends. */
  function SubjectVerbAt(t: string, i: nat, kind: SubjectVerbKind): (r: Option<SubjectVerbMatch>)
    requires i <= |t|
    ensures r.Some? ==> i < r.value.end <= |t|
  {
    match SubjectVerbBounds(t, i, kind)
    case None => None
    case Some((a, b, c, d, e)) => Some(SubjectVerbMatch(t[a..b], t[c..d], e))
  }

  /** `re.finditer` of the third or fourth pattern from `i`. */
  function SubjectVerbMatchesFrom(t: string, i: nat, kind: SubjectVerbKind): (r: seq<SubjectVerbMatch>)
    requires i <= |t|
    ensures forall k | 0 <= k < |r| :: i < r[k].end <= |t|
    decreases |t| - i
  {
    var here := SubjectVerbAt(t, i, kind);
    if here.Some? then
      PrependSubjectVerb(here.value, SubjectVerbMatchesFrom(t, here.value.end, kind), i, |t|)
    else if i == |t| then []
    else SubjectVerbMatchesFrom(t, i + 1, kind)
  }

  /** `[m] + rest`, where every match of `rest` ends after `m` does. */
  function PrependSubjectVerb(m: SubjectVerbMatch, rest: seq<SubjectVerbMatch>, i: nat, n: nat)
    : (r: seq<SubjectVerbMatch>)
    requires i < m.end <= n && forall k | 0 <= k < |rest| :: m.end < rest[k].end <= n
    ensures r == [m] + rest
    ensures forall k | 0 <= k < |r| :: i < r[k].end <= n
  {
    assert forall k | 0 < k <= |rest| :: ([m] + rest)[k] == rest[k - 1];
    [m] + rest
  }

  /** Subjects and verbs of these patterns are single words. */
  lemma SubjectVerbWords(t: string, i: nat, kind: SubjectVerbKind)
    requires i <= |t| && SubjectVerbAt(t, i, kind).Some?
    ensures var m := SubjectVerbAt(t, i, kind).value;
      && |m.subject| > 0 && |m.verb| > 0
      && (forall k | 0 <= k < |m.subject| :: IsWordChar(m.subject[k]))
      && (forall k | 0 <= k < |m.verb| :: IsWordChar(m.verb[k]))
  {
    var (a, b, c, d, e) := SubjectVerbBounds(t, i, kind).value;
    SliceIn(t, a, b, WordChars);
    SliceIn(t, c, d, WordChars);
  }

  /** A slice of a run of class `k` holds only characters of `k`. */
  lemma SliceIn(t: string, a: nat, b: nat, k: CharClass)
    requires a <= b <= |t| && forall m | a <= m < b :: In(t[m], k)
    ensures forall j | 0 <= j < b - a :: In(t[a..b][j], k)
  {
    forall j | 0 <= j < b - a
      ensures In(t[a..b][j], k)
    {
      assert t[a..b][j] == t[a + j];
    }
  }

  /** `_infer_cardinality`. */
  datatype Cardinality = Cardinality(source: string, target: string)

  function InferCardinality(text: string): (c: Cardinality)
    ensures c.source == "1" && c.target in {"1", "1..*", "0..*"}
  {
    var low := Lower(text);
    if Contains(low, "exactly one") then Cardinality("1", "1")
    else if Contains(low, "one or more") then Cardinality("1", "1..*")
    else if Contains(low, "zero or more") then Cardinality("1", "0..*")
    else if Contains(low, "multiple") || Contains(low, "many") then Cardinality("1", "0..*")
    else Cardinality("1", "0..*")
  }

  /** "exactly one" wins over "one or more", which wins over everything
      else; every other text gives the default "0..*". */
  lemma InferCardinalityPrecedence(text: string)
    ensures InferCardinality(text).target == "1" <==> Contains(Lower(text), "exactly one")
    ensures InferCardinality(text).target == "1..*" <==>
      !Contains(Lower(text), "exactly one") && Contains(Lower(text), "one or more")
    ensures InferCardinality(text).target == "0..*" <==>
      !Contains(Lower(text), "exactly one") && !Contains(Lower(text), "one or more")
  {
  }
}
