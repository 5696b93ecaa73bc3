/** Attribute extraction from DEF lines (`extract_attributes`,
    `_extract_attribute_names`, `_infer_data_type`, app/extract.py). */
module AttributeExtraction {
  import opened Text
  import opened Filter
  import opened Concepts

  /** The five type names `_infer_data_type` produces. */
  datatype DataType = Int | Decimal | Boolean | Date | Str

  function TypeName(t: DataType): string
  {
    match t
    case Int => "int"
    case Decimal => "decimal"
    case Boolean => "boolean"
    case Date => "Date"
    case Str => "String"
  }

  datatype Attribute = Attribute(name: string, dataType: DataType, sourceSegments: seq<string>)

  /** The keyword families `_infer_data_type` looks for, in its order. */
  const DateWords: seq<string> := ["date", "time", "timestamp"]
  const MoneyWords: seq<string> := ["amount", "price", "cost", "total", "subtotal"]
  const CountWords: seq<string> := ["quantity", "count", "number", "rating"]
  const FlagWords: seq<string> := ["is", "has", "enabled", "active"]

  /** `_infer_data_type`: keyword families tried in order on the lowered
      name; the context argument is never consulted. The e-mail, password,
      address and phone rules all give String, like the default. */
  function InferDataType(attrName: string, context: string): DataType
  {
    var low := Lower(attrName);
    if EndsWith(low, "id") then Int
    else if ContainsAny(low, DateWords) then Date
    else if ContainsAny(low, MoneyWords) then Decimal
    else if ContainsAny(low, CountWords) then Int
    else if ContainsAny(low, FlagWords) then Boolean
    else if Contains(low, "email") then Str
    else if Contains(low, "password") then Str
    else if Contains(low, "address") || Contains(low, "street") || Contains(low, "city") then Str
    else if Contains(low, "phone") then Str
    else Str
  }

  /** The type depends on the name only. */
  lemma InferDataTypeIgnoresContext(attrName: string, c1: string, c2: string)
    ensures InferDataType(attrName, c1) == InferDataType(attrName, c2)
  {
  }

  /** The rule order: an "id" suffix wins, then date words, then money
      words, then count words, then flag words; a name with none of them is
      a String. */
  lemma InferDataTypeOrder(attrName: string, context: string)
    ensures var low := Lower(attrName);
      var t := InferDataType(attrName, context);
      && (EndsWith(low, "id") ==> t == Int)
      && (t == Date <==> (!EndsWith(low, "id") && ContainsAny(low, DateWords)))
      && (t == Decimal <==>
           (!EndsWith(low, "id") && !ContainsAny(low, DateWords) && ContainsAny(low, MoneyWords)))
      && (t == Boolean <==>
           (!EndsWith(low, "id") && !ContainsAny(low, DateWords) && !ContainsAny(low, MoneyWords)
            && !ContainsAny(low, CountWords) && ContainsAny(low, FlagWords)))
      && (t == Str <==>
           (!EndsWith(low, "id") && !ContainsAny(low, DateWords) && !ContainsAny(low, MoneyWords)
            && !ContainsAny(low, CountWords) && !ContainsAny(low, FlagWords)))
  {
  }

  /** "country" is an int: it contains "count" and no earlier rule fires. */
  lemma CountryIsInt()
    ensures InferDataType("country", "") == Int
  {
    var low := Lower("country");
    assert low == "country";
    assert !EndsWith(low, "id");
    assert At(low, 0, "count");
    forall w | w in DateWords + MoneyWords
      ensures !Contains(low, w)
    {
      AbsentTriple(low, w);
    }
    ContainsAnyExists(low, DateWords);
    ContainsAnyExists(low, MoneyWords);
    ContainsAnyExists(low, CountWords);
    assert !ContainsAny(low, DateWords) && !ContainsAny(low, MoneyWords);
    assert "count" in CountWords && Contains(low, "count");
  }

  /** A word whose first three letters never occur together in `s` does
      not occur in `s`. */
  lemma AbsentTriple(s: string, w: string)
    requires |w| >= 3
    requires forall i | 0 <= i && i + 2 < |s| :: !(s[i] == w[0] && s[i + 1] == w[1] && s[i + 2] == w[2])
    ensures !Contains(s, w)
  {
    forall i | 0 <= i <= |s|
      ensures !At(s, i, w)
    {
      if i + |w| <= |s| {
        var j := if s[i] != w[0] then 0 else if s[i + 1] != w[1] then 1 else 2;
        assert s[i..i + |w|][j] != w[j];
      }
    }
  }

  /** A name containing "count", such as "country" or "accountNumber", is an
      int unless an earlier rule fires first. */
  lemma CountWordsAreInt(attrName: string, context: string)
    requires Contains(Lower(attrName), "count")
    requires !EndsWith(Lower(attrName), "id")
    requires !ContainsAny(Lower(attrName), DateWords)
    requires !ContainsAny(Lower(attrName), MoneyWords)
    ensures InferDataType(attrName, context) == Int
  {
    ContainsAnyExists(Lower(attrName), CountWords);
    assert "count" in CountWords;
  }

  /** The generic nouns `_extract_attribute_names` never accepts. */
  const GenericNouns: seq<string> := ["user", "person", "item", "thing", "object", "has", "includes", "contains", "with"]

  /** The words `^\s*(?:a|an|the|with|for|of)\s+` removes from a part. */
  const LeadingWords: seq<string> := ["a", "an", "the", "with", "for", "of"]

  /** `re.split(r',|\band\b', text)` from index `i`, the current part having
      begun at `start`. */
  function SplitFrom(text: string, start: nat, i: nat): (parts: seq<string>)
    requires start <= i <= |text|
    ensures |parts| >= 1
    decreases |text| - i
  {
    if i == |text| then [text[start..]]
    else if text[i] == ',' then [text[start..i]] + SplitFrom(text, i + 1, i + 1)
    else if WordOccursAt(text, "and", i) then [text[start..i]] + SplitFrom(text, i + 3, i + 3)
    else SplitFrom(text, start, i + 1)
  }

  function SplitParts(text: string): seq<string> { SplitFrom(text, 0, 0) }

  /** No part keeps a comma: every comma is a separator. */
  lemma {:induction false} SplitFromNoComma(text: string, start: nat, i: nat)
    requires start <= i <= |text|
    requires forall k | start <= k < i :: text[k] != ','
    ensures forall p, k | p in SplitFrom(text, start, i) && 0 <= k < |p| :: p[k] != ','
    decreases |text| - i
  {
    if i < |text| {
      if text[i] == ',' {
        SplitFromNoComma(text, i + 1, i + 1);
      } else if WordOccursAt(text, "and", i) {
        SplitFromNoComma(text, i + 3, i + 3);
      } else {
        SplitFromNoComma(text, start, i + 1);
      }
    }
  }

  /** A text without a comma and without the word "and" is one part. */
  lemma {:induction false} SplitFromWhole(text: string, start: nat, i: nat)
    requires start <= i <= |text|
    requires forall k | i <= k < |text| :: text[k] != ',' && !WordOccursAt(text, "and", k)
    ensures SplitFrom(text, start, i) == [text[start..]]
    decreases |text| - i
  {
    if i < |text| {
      SplitFromWhole(text, start, i + 1);
    }
  }

  /** The split of a list text: comma-free parts, and the text itself when
      it has neither separator. */
  lemma SplitPartsShape(text: string)
    ensures forall p, k | p in SplitParts(text) && 0 <= k < |p| :: p[k] != ','
    ensures (forall k | 0 <= k < |text| :: text[k] != ',' && !WordOccursAt(text, "and", k)) ==> SplitParts(text) == [text]
  {
    SplitFromNoComma(text, 0, 0);
    if forall k | 0 <= k < |text| :: text[k] != ',' && !WordOccursAt(text, "and", k) {
      SplitFromWhole(text, 0, 0);
    }
  }

  /** `re.search(r'\b([a-z][a-zA-Z0-9_]*)\b', p)` from index `j`: the first
      word that begins with a lower-case letter, up to the end of its word
      run. */
  function IdentifierFrom(p: string, j: nat): (r: Option<string>)
    requires j <= |p|
    ensures r.Some? ==>
      |r.value| >= 1 && IsLower(r.value[0]) && forall k | 0 <= k < |r.value| :: IsWordChar(r.value[k])
    decreases |p| - j
  {
    if j == |p| then None
    else if Boundary(p, j) && IsLower(p[j]) then Some(p[j..Span(p, j, WordChars)])
    else IdentifierFrom(p, j + 1)
  }

  /** The attribute one part of a list yields, if any: the first
      identifier of the cleaned part, unless it is a stopword, a generic
      noun or shorter than three characters. */
  function PartCandidate(part: string, segmentId: string): Option<Attribute>
  {
    var p0 := Strip(part);
    var p := DropLeadingWord(p0, Span(p0, 0, Spaces), LeadingWords);
    match IdentifierFrom(p, 0)
    case None => None
    case Some(name) =>
      if OneOf(Lower(name), Stopwords) || OneOf(Lower(name), GenericNouns) then None
      else if |name| < 3 then None
      else Some(Attribute(name, InferDataType(name, p), [segmentId]))
  }

  /** An accepted name has at least three characters, starts with a
      lower-case letter, is neither a stopword nor a generic noun, and
      carries the part's segment id and the type its name implies. */
  lemma PartCandidateSound(part: string, segmentId: string)
    requires PartCandidate(part, segmentId).Some?
    ensures var a := PartCandidate(part, segmentId).value;
      && |a.name| >= 3 && IsLower(a.name[0])
      && Lower(a.name) !in Stopwords && Lower(a.name) !in GenericNouns
      && a.sourceSegments == [segmentId] && a.dataType == InferDataType(a.name, "")
  {
    var p0 := Strip(part);
    var p := DropLeadingWord(p0, Span(p0, 0, Spaces), LeadingWords);
    var name := IdentifierFrom(p, 0).value;
    InferDataTypeIgnoresContext(name, p, "");
    OneOfIn(Lower(name), Stopwords);
    OneOfIn(Lower(name), GenericNouns);
    assert PartCandidate(part, segmentId).value == Attribute(name, InferDataType(name, p), [segmentId]);
  }

  /** The accepted candidates of a sequence of parts, in order. */
  function Candidates(parts: seq<string>, segmentId: string): seq<Attribute>
  {
    if parts == [] then []
    else
      var c := PartCandidate(parts[|parts| - 1], segmentId);
      Candidates(parts[..|parts| - 1], segmentId) + (if c.Some? then [c.value] else [])
  }

  lemma CandidatesSnoc(parts: seq<string>, k: nat, segmentId: string)
    requires k < |parts|
    ensures Candidates(parts[..k + 1], segmentId) == Candidates(parts[..k], segmentId)
      + (if PartCandidate(parts[k], segmentId).Some? then [PartCandidate(parts[k], segmentId).value] else [])
  {
    assert parts[..k + 1][..k] == parts[..k];
  }

  /** Some entry already carries `name`, compared case-insensitively. */
  predicate HasNameCI(list: seq<Attribute>, name: string)
  {
    exists k | 0 <= k < |list| :: Lower(list[k].name) == Lower(name)
  }

  /** Names are unique per class, compared case-insensitively. */
  predicate UniqueCI(list: seq<Attribute>)
  {
    forall i, j | 0 <= i < j < |list| :: Lower(list[i].name) != Lower(list[j].name)
  }

  /** No candidate before `j` has the name of candidate `j`. */
  predicate FirstWithName(cands: seq<Attribute>, j: nat)
    requires j < |cands|
  {
    forall j' | 0 <= j' < j :: Lower(cands[j'].name) != Lower(cands[j].name)
  }

  /** Append each candidate whose name is not yet present. */
  function MergeAll(list: seq<Attribute>, cands: seq<Attribute>): seq<Attribute>
  {
    if cands == [] then list
    else
      var acc := MergeAll(list, cands[..|cands| - 1]);
      var c := cands[|cands| - 1];
      if HasNameCI(acc, c.name) then acc else acc + [c]
  }

  /** Merging keeps the old entries in front, unchanged, and keeps names
      unique; every candidate's name ends up present; every new entry is a
      candidate, and the first candidate with its name. */
  lemma MergeAllSpec(list: seq<Attribute>, cands: seq<Attribute>)
    ensures |MergeAll(list, cands)| >= |list| && MergeAll(list, cands)[..|list|] == list
    ensures UniqueCI(list) ==> UniqueCI(MergeAll(list, cands))
    ensures forall j | 0 <= j < |cands| :: HasNameCI(MergeAll(list, cands), cands[j].name)
    ensures forall k | |list| <= k < |MergeAll(list, cands)| ::
      !HasNameCI(list, MergeAll(list, cands)[k].name) &&
      exists j | 0 <= j < |cands| :: cands[j] == MergeAll(list, cands)[k] && FirstWithName(cands, j)
  {
    MergeAllPrefix(list, cands);
    if UniqueCI(list) {
      MergeAllUnique(list, cands);
    }
    MergeAllHasAll(list, cands);
    MergeAllNew(list, cands);
  }

  lemma {:induction false} MergeAllPrefix(list: seq<Attribute>, cands: seq<Attribute>)
    ensures |MergeAll(list, cands)| >= |list| && MergeAll(list, cands)[..|list|] == list
  {
    if cands != [] {
      var acc := MergeAll(list, cands[..|cands| - 1]);
      MergeAllPrefix(list, cands[..|cands| - 1]);
      if !HasNameCI(acc, cands[|cands| - 1].name) {
        assert (acc + [cands[|cands| - 1]])[..|list|] == acc[..|list|];
      }
    }
  }

  lemma {:induction false} MergeAllUnique(list: seq<Attribute>, cands: seq<Attribute>)
    requires UniqueCI(list)
    ensures UniqueCI(MergeAll(list, cands))
  {
    if cands != [] {
      var acc := MergeAll(list, cands[..|cands| - 1]);
      var c := cands[|cands| - 1];
      MergeAllUnique(list, cands[..|cands| - 1]);
      if !HasNameCI(acc, c.name) {
        var r := acc + [c];
        forall i, j | 0 <= i < j < |r|
          ensures Lower(r[i].name) != Lower(r[j].name)
        {
          if j == |acc| {
            assert r[i] == acc[i];
          } else {
            assert r[i] == acc[i] && r[j] == acc[j];
          }
        }
      }
    }
  }

  lemma {:induction false} MergeAllHasAll(list: seq<Attribute>, cands: seq<Attribute>)
    ensures forall j | 0 <= j < |cands| :: HasNameCI(MergeAll(list, cands), cands[j].name)
  {
    if cands != [] {
      var init := cands[..|cands| - 1];
      var acc := MergeAll(list, init);
      var c := cands[|cands| - 1];
      MergeAllHasAll(list, init);
      var r := MergeAll(list, cands);
      forall j | 0 <= j < |cands|
        ensures HasNameCI(r, cands[j].name)
      {
        if j < |init| {
          assert init[j] == cands[j];
          var k :| 0 <= k < |acc| && Lower(acc[k].name) == Lower(init[j].name);
          assert r[k] == acc[k];
        } else if !HasNameCI(acc, c.name) {
          assert r[|acc|] == c;
        }
      }
    }
  }

  lemma {:induction false} MergeAllNew(list: seq<Attribute>, cands: seq<Attribute>)
    ensures forall k | |list| <= k < |MergeAll(list, cands)| ::
      !HasNameCI(list, MergeAll(list, cands)[k].name) &&
      exists j | 0 <= j < |cands| :: cands[j] == MergeAll(list, cands)[k] && FirstWithName(cands, j)
  {
    if cands != [] {
      var init := cands[..|cands| - 1];
      var acc := MergeAll(list, init);
      var c := cands[|cands| - 1];
      var r := MergeAll(list, cands);
      MergeAllNew(list, init);
      MergeAllPrefix(list, init);
      MergeAllHasAll(list, init);
      assert r == acc || (r == acc + [c] && !HasNameCI(acc, c.name));
      forall k | |list| <= k < |r|
        ensures !HasNameCI(list, r[k].name)
        ensures exists j | 0 <= j < |cands| :: cands[j] == r[k] && FirstWithName(cands, j)
      {
        if k < |acc| {
          assert r[k] == acc[k];
          var j :| 0 <= j < |init| && init[j] == acc[k] && FirstWithName(init, j);
          FirstWithNameExtends(cands, j);
        } else {
          assert r[k] == c;
          var last := |cands| - 1;
          forall j' | 0 <= j' < last
            ensures Lower(cands[j'].name) != Lower(cands[last].name)
          {
            assert init[j'] == cands[j'];
            assert HasNameCI(acc, init[j'].name);
          }
          assert FirstWithName(cands, last);
          forall i | 0 <= i < |list|
            ensures Lower(list[i].name) != Lower(c.name)
          {
            assert acc[i] == list[i];
          }
        }
      }
    }
  }

  lemma FirstWithNameExtends(cands: seq<Attribute>, j: nat)
    requires j < |cands| - 1 && FirstWithName(cands[..|cands| - 1], j)
    ensures FirstWithName(cands, j)
  {
    var init := cands[..|cands| - 1];
    forall j' | 0 <= j' < j
      ensures Lower(cands[j'].name) != Lower(cands[j].name)
    {
      assert init[j'] == cands[j'] && init[j] == cands[j];
    }
  }

  lemma {:induction false} CandidatesSound(parts: seq<string>, segmentId: string)
    ensures forall k | 0 <= k < |Candidates(parts, segmentId)| ::
      GoodAttribute(Candidates(parts, segmentId)[k]) && Candidates(parts, segmentId)[k].sourceSegments == [segmentId]
  {
    if parts != [] {
      CandidatesSound(parts[..|parts| - 1], segmentId);
      if PartCandidate(parts[|parts| - 1], segmentId).Some? {
        PartCandidateSound(parts[|parts| - 1], segmentId);
      }
    }
  }

  /** `_extract_attribute_names` on `attrs[className]`: each part's
      candidate is appended unless its name is already present. */
  method ExtractAttributeNames(text: string, className: string, segmentId: string, attrs: map<string, seq<Attribute>>)
    returns (result: map<string, seq<Attribute>>)
    requires className in attrs
    ensures result == attrs[className := MergeAll(attrs[className], Candidates(SplitParts(text), segmentId))]
  {
    var parts := SplitParts(text);
    var list := attrs[className];
    for k := 0 to |parts|
      invariant list == MergeAll(attrs[className], Candidates(parts[..k], segmentId))
    {
      ghost var cands := Candidates(parts[..k], segmentId);
      CandidatesSnoc(parts, k, segmentId);
      var c := PartCandidate(parts[k], segmentId);
      if c.None? {
        assert cands + [] == cands;
        continue;
      }
      assert (cands + [c.value])[..|cands|] == cands;
      if !HasNameCI(list, c.value.name) {
        list := list + [c.value];
      }
    }
    assert parts[..|parts|] == parts;
    result := attrs[className := list];
  }

  /** `re.sub(r"^\s*DEF\s+", "", txt, flags=re.IGNORECASE)`. */
  function RemoveDefPrefix(txt: string): (r: string)
    ensures |r| <= |txt|
  {
    var a := Span(txt, 0, Spaces);
    if At(Lower(txt), a, "def") && Span(txt, a + 3, Spaces) > a + 3 then txt[Span(txt, a + 3, Spaces)..] else txt
  }

  /** `(?:A|An|The)\s+([A-Z][a-zA-Z]+)\s+` at `i`, case-insensitively: the
      bounds of the class word. Only one article can be followed by
      whitespace at a given index, so the first that fits is the one the
      engine keeps. */
  function ClassHead(t: string, i: nat, articles: seq<string>): (r: Option<(nat, nat)>)
    requires i <= |t|
    ensures r.Some? ==>
      i < r.value.0 && r.value.0 + 2 <= r.value.1 < |t| && IsSpace(t[r.value.1])
      && forall k | r.value.0 <= k < r.value.1 :: IsLetter(t[k])
    decreases |articles|
  {
    if articles == [] then None
    else
      var a := articles[0];
      var q := if At(Lower(t), i, a) then Span(t, i + |a|, Spaces) else i;
      var r := Span(t, q, Letters);
      if At(Lower(t), i, a) && q > i + |a| && r >= q + 2 && Span(t, r, Spaces) > r then Some((q, r))
      else ClassHead(t, i, articles[1..])
  }

  const HeadArticles: seq<string> := ["a", "an", "the"]

  /** Verbs of the first attribute pattern, `with|has|contains?|includes?`,
      in the order the engine tries them. */
  const ListVerbs1: seq<string> := ["with", "has", "contains", "contain", "includes", "include"]

  /** Verbs of the second attribute pattern, `with|has|includes?|contains?`. */
  const ListVerbs2: seq<string> := ["with", "has", "includes", "include", "contains", "contain"]

  /** One of `verbs` at `v` followed by whitespace: the end of the verb. */
  function VerbThenSpace(l: string, v: nat, verbs: seq<string>): (r: Option<nat>)
    requires v <= |l|
    ensures r.Some? ==> v < r.value < |l| && IsSpace(l[r.value])
    decreases |verbs|
  {
    if verbs == [] then None
    else if |verbs[0]| > 0 && At(l, v, verbs[0]) && Span(l, v + |verbs[0]|, Spaces) > v + |verbs[0]| then Some(v + |verbs[0]|)
    else VerbThenSpace(l, v, verbs[1..])
  }

  /** `.*?\b(?:with|has|contains?|includes?)\s+` from `v`: the end of the
      first verb that starts a word and is followed by whitespace. */
  function ListVerb1From(t: string, v: nat): (r: Option<nat>)
    requires v <= |t|
    ensures r.Some? ==> v < r.value < |t|
    decreases |t| - v
  {
    if Boundary(t, v) && VerbThenSpace(Lower(t), v, ListVerbs1).Some? then VerbThenSpace(Lower(t), v, ListVerbs1)
    else if v == |t| then None
    else ListVerb1From(t, v + 1)
  }

  /** The first index at or after `d` holding '.', or the end. */
  function DotFrom(t: string, d: nat): (r: nat)
    requires d <= |t|
    ensures d <= r <= |t| && (r < |t| ==> t[r] == '.')
    ensures forall k | d <= k < r :: t[k] != '.'
    decreases |t| - d
  {
    if d == |t| || t[d] == '.' then d else DotFrom(t, d + 1)
  }

  /** The tail `\s+(?:a|an)?\s*(.*?)(?:\.|$)` after a verb ending at `e`; it
      always matches. `(?:a|an)?` tries "a" first, so a list that begins
      with "an" loses its "a". */
  function ListTail1(t: string, e: nat): (r: string)
    requires e <= |t|
    ensures forall k | 0 <= k < |r| :: r[k] != '.'
  {
    var w0 := Span(t, e, Spaces);
    var w1 := if w0 < |t| && LowerChar(t[w0]) == 'a' then w0 + 1 else w0;
    var w2 := Span(t, w1, Spaces);
    var d := DotFrom(t, w2);
    assert forall k | 0 <= k < d - w2 :: t[w2..d][k] == t[w2 + k];
    t[w2..d]
  }

  /** The quirk of `(?:a|an)?`: after "has", the list " an email" keeps
      only "n email". */
  lemma ListTailDropsArticleA()
    ensures ListTail1(" an email", 0) == "n email"
  {
    var t := " an email";
    assert Span(t, 0, Spaces) == 1;
    assert Span(t, 2, Spaces) == 2;
    assert DotFrom(t, 2) == |t|;
  }

  /** The first attribute pattern tried at `i`: the class word and the list
      text. */
  function ListPattern1At(t: string, i: nat): Option<(string, string)>
    requires i <= |t|
  {
    match ClassHead(t, i, HeadArticles)
    case None => None
    case Some((q, r)) =>
      match ListVerb1From(t, Span(t, r, Spaces))
      case None => None
      case Some(e) => Some((t[q..r], ListTail1(t, e)))
  }

  /** `re.search` of the first attribute pattern from `i`. */
  function ListPattern1From(t: string, i: nat): Option<(string, string)>
    requires i <= |t|
    decreases |t| - i
  {
    if ListPattern1At(t, i).Some? then ListPattern1At(t, i)
    else if i == |t| then None
    else ListPattern1From(t, i + 1)
  }

  /** `(?:with|has|includes?|contains?)\s+([\w,\s]+)` at `v`, alternatives in
      order. The whitespace run is greedy; when what follows it cannot start
      the group, the run gives back one blank, which becomes the whole
      group. */
  function ListGroup2(t: string, v: nat, verbs: seq<string>): Option<string>
    requires v <= |t|
    decreases |verbs|
  {
    if verbs == [] then None
    else
      var w := verbs[0];
      var e := v + |w|;
      if At(Lower(t), v, w) then
        var w0 := Span(t, e, Spaces);
        if w0 > e && w0 < |t| && In(t[w0], ListChars) then Some(t[w0..Span(t, w0, ListChars)])
        else if w0 >= e + 2 then Some(t[w0 - 1..w0])
        else ListGroup2(t, v, verbs[1..])
      else ListGroup2(t, v, verbs[1..])
  }

  /** `.*?(?:with|has|includes?|contains?)\s+([\w,\s]+)` from `v`. */
  function ListGroup2From(t: string, v: nat): Option<string>
    requires v <= |t|
    decreases |t| - v
  {
    if ListGroup2(t, v, ListVerbs2).Some? then ListGroup2(t, v, ListVerbs2)
    else if v == |t| then None
    else ListGroup2From(t, v + 1)
  }

  function ListPattern2At(t: string, i: nat): Option<(string, string)>
    requires i <= |t|
  {
    match ClassHead(t, i, HeadArticles)
    case None => None
    case Some((q, r)) =>
      match ListGroup2From(t, Span(t, r, Spaces))
      case None => None
      case Some(g) => Some((t[q..r], g))
  }

  /** `re.search` of the second attribute pattern from `i`. */
  function ListPattern2From(t: string, i: nat): Option<(string, string)>
    requires i <= |t|
    decreases |t| - i
  {
    if ListPattern2At(t, i).Some? then ListPattern2At(t, i)
    else if i == |t| then None
    else ListPattern2From(t, i + 1)
  }

  /** `s.split('.')[0]`. */
  function BeforeDot(s: string): (r: string)
    ensures r == s[..DotFrom(s, 0)]
  {
    s[..DotFrom(s, 0)]
  }

  /** `attrs.setdefault(name, [])` followed by `_extract_attribute_names`. */
  function RecordList(attrs: map<string, seq<Attribute>>, className: string, text: string, segmentId: string)
    : map<string, seq<Attribute>>
  {
    var cur := if className in attrs then attrs[className] else [];
    attrs[className := MergeAll(cur, Candidates(SplitParts(text), segmentId))]
  }

  /** What one segment does to the attribute map. */
  function SegmentAttributes(attrs: map<string, seq<Attribute>>, s: Segment): map<string, seq<Attribute>>
  {
    if s.kind != DEF then attrs
    else
      var clean := RemoveDefPrefix(Strip(s.text));
      var m1 := ListPattern1From(clean, 0);
      if m1.Some? && OkConcept(NormalizeClassName(m1.value.0)) then
        RecordList(attrs, NormalizeClassName(m1.value.0), m1.value.1, s.segmentId)
      else
        var m2 := ListPattern2From(clean, 0);
        if m2.Some? && OkConcept(NormalizeClassName(m2.value.0)) then
          RecordList(attrs, NormalizeClassName(m2.value.0), BeforeDot(m2.value.1), s.segmentId)
        else attrs
  }

  /** The attribute map the loop over `segments` builds. */
  function AttributesOf(segments: seq<Segment>): map<string, seq<Attribute>>
  {
    if segments == [] then map[]
    else SegmentAttributes(AttributesOf(segments[..|segments| - 1]), segments[|segments| - 1])
  }

  lemma AttributesOfSnoc(segments: seq<Segment>, i: nat)
    requires i < |segments|
    ensures AttributesOf(segments[..i + 1]) == SegmentAttributes(AttributesOf(segments[..i]), segments[i])
  {
    assert segments[..i + 1][..i] == segments[..i];
  }

  /** `attrs.setdefault(class_name, [])` and the call of
      `_extract_attribute_names` that follows it. */
  method RecordAttributes(attrs: map<string, seq<Attribute>>, className: string, text: string, segmentId: string)
    returns (result: map<string, seq<Attribute>>)
    ensures result == RecordList(attrs, className, text, segmentId)
  {
    var start := attrs;
    if className !in start {
      start := start[className := []];
    }
    result := ExtractAttributeNames(text, className, segmentId, start);
    UpdateTwice(attrs, className, [], MergeAll([], Candidates(SplitParts(text), segmentId)));
  }

  lemma UpdateTwice<K, V>(m: map<K, V>, k: K, v: V, w: V)
    ensures m[k := v][k := w] == m[k := w]
  {
  }

  /** `extract_attributes`. */
  method ExtractAttributes(segments: seq<Segment>) returns (attrs: map<string, seq<Attribute>>)
    ensures attrs == AttributesOf(segments)
  {
    attrs := map[];
    for i := 0 to |segments|
      invariant attrs == AttributesOf(segments[..i])
    {
      var s := segments[i];
      AttributesOfSnoc(segments, i);
      if s.kind != DEF {
        continue;
      }
      var txt := Strip(s.text);
      var txtClean := RemoveDefPrefix(txt);
      var match1 := ListPattern1From(txtClean, 0);
      if match1.Some? {
        var className := NormalizeClassName(match1.value.0);
        if OkConcept(className) {
          attrs := RecordAttributes(attrs, className, match1.value.1, s.segmentId);
          continue;
        }
      }
      var match2 := ListPattern2From(txtClean, 0);
      if match2.Some? {
        var className := NormalizeClassName(match2.value.0);
        if OkConcept(className) {
          var attributesText := BeforeDot(match2.value.1);
          attrs := RecordAttributes(attrs, className, attributesText, s.segmentId);
        }
      }
    }
    assert segments[..|segments|] == segments;
  }

  /** An attribute as `_extract_attribute_names` builds it: a name of at
      least three characters that is neither a stopword nor a generic
      noun, the type that name implies, and one segment id. */
  predicate GoodAttribute(a: Attribute)
  {
    |a.name| >= 3 && !OneOf(Lower(a.name), Stopwords) && !OneOf(Lower(a.name), GenericNouns)
    && a.dataType == InferDataType(a.name, "") && |a.sourceSegments| == 1
  }

  /** The attribute's one source is a DEF segment of `segments`. */
  predicate FromDefSegment(a: Attribute, segments: seq<Segment>)
  {
    exists j | 0 <= j < |segments| :: segments[j].kind == DEF && a.sourceSegments == [segments[j].segmentId]
  }

  /** The invariant of the attribute map: every key passes the gate, every
      list has unique names, and every attribute is well formed and was
      read from a DEF segment of the input. */
  predicate AttributesInvariant(attrs: map<string, seq<Attribute>>, segments: seq<Segment>)
  {
    forall name | name in attrs ::
      OkConcept(name) && UniqueCI(attrs[name]) &&
      forall k | 0 <= k < |attrs[name]| :: GoodAttribute(attrs[name][k]) && FromDefSegment(attrs[name][k], segments)
  }

  lemma RecordListKeeps(attrs: map<string, seq<Attribute>>, className: string, text: string,
                        segments: seq<Segment>, j: nat)
    requires AttributesInvariant(attrs, segments)
    requires OkConcept(className)
    requires j < |segments| && segments[j].kind == DEF
    ensures AttributesInvariant(RecordList(attrs, className, text, segments[j].segmentId), segments)
  {
    var id := segments[j].segmentId;
    var cur := if className in attrs then attrs[className] else [];
    assert UniqueCI(cur) && forall k | 0 <= k < |cur| :: GoodAttribute(cur[k]) && FromDefSegment(cur[k], segments);
    MergedListKeeps(cur, text, segments, j);
    InvariantUpdate(attrs, segments, className, MergeAll(cur, Candidates(SplitParts(text), id)));
  }

  /** The merged list of one class keeps the per-list part of the invariant. */
  lemma MergedListKeeps(cur: seq<Attribute>, text: string, segments: seq<Segment>, j: nat)
    requires UniqueCI(cur) && forall k | 0 <= k < |cur| :: GoodAttribute(cur[k]) && FromDefSegment(cur[k], segments)
    requires j < |segments| && segments[j].kind == DEF
    ensures var merged := MergeAll(cur, Candidates(SplitParts(text), segments[j].segmentId));
      UniqueCI(merged) && forall k | 0 <= k < |merged| :: GoodAttribute(merged[k]) && FromDefSegment(merged[k], segments)
  {
    var id := segments[j].segmentId;
    var cands := Candidates(SplitParts(text), id);
    MergeAllSpec(cur, cands);
    CandidatesSound(SplitParts(text), id);
    var merged := MergeAll(cur, cands);
    forall k | 0 <= k < |merged|
      ensures GoodAttribute(merged[k]) && FromDefSegment(merged[k], segments)
    {
      if k < |cur| {
        assert merged[k] == cur[k];
      } else {
        var m :| 0 <= m < |cands| && cands[m] == merged[k];
        assert GoodAttribute(cands[m]);
        assert segments[j].kind == DEF && cands[m].sourceSegments == [segments[j].segmentId];
      }
    }
  }

  /** Putting a good list under a key that passes the gate keeps the invariant. */
  lemma InvariantUpdate(attrs: map<string, seq<Attribute>>, segments: seq<Segment>, name: string, list: seq<Attribute>)
    requires AttributesInvariant(attrs, segments)
    requires OkConcept(name) && UniqueCI(list)
    requires forall k | 0 <= k < |list| :: GoodAttribute(list[k]) && FromDefSegment(list[k], segments)
    ensures AttributesInvariant(attrs[name := list], segments)
  {
  }

  lemma SegmentAttributesKeeps(attrs: map<string, seq<Attribute>>, segments: seq<Segment>, j: nat)
    requires j < |segments|
    requires AttributesInvariant(attrs, segments)
    ensures AttributesInvariant(SegmentAttributes(attrs, segments[j]), segments)
  {
    var s := segments[j];
    if s.kind == DEF {
      var clean := RemoveDefPrefix(Strip(s.text));
      var m1 := ListPattern1From(clean, 0);
      if m1.Some? && OkConcept(NormalizeClassName(m1.value.0)) {
        RecordListKeeps(attrs, NormalizeClassName(m1.value.0), m1.value.1, segments, j);
      } else {
        var m2 := ListPattern2From(clean, 0);
        if m2.Some? && OkConcept(NormalizeClassName(m2.value.0)) {
          RecordListKeeps(attrs, NormalizeClassName(m2.value.0), BeforeDot(m2.value.1), segments, j);
        }
      }
    }
  }

  lemma FromDefSegmentWidens(a: Attribute, segments: seq<Segment>, n: nat)
    requires n <= |segments| && FromDefSegment(a, segments[..n])
    ensures FromDefSegment(a, segments)
  {
    var j :| 0 <= j < n && segments[..n][j].kind == DEF && a.sourceSegments == [segments[..n][j].segmentId];
    assert segments[..n][j] == segments[j];
  }

  lemma InvariantWidens(attrs: map<string, seq<Attribute>>, segments: seq<Segment>, n: nat)
    requires n <= |segments| && AttributesInvariant(attrs, segments[..n])
    ensures AttributesInvariant(attrs, segments)
  {
    forall name, k | name in attrs && 0 <= k < |attrs[name]|
      ensures FromDefSegment(attrs[name][k], segments)
    {
      FromDefSegmentWidens(attrs[name][k], segments, n);
    }
  }

  /** `extract_attributes` keeps the invariant: classes pass the gate, names
      are unique per class (first occurrence wins), and every attribute
      comes from a DEF segment. */
  lemma {:induction false} AttributesOfInvariant(segments: seq<Segment>)
    ensures AttributesInvariant(AttributesOf(segments), segments)
  {
    if segments != [] {
      var init := segments[..|segments| - 1];
      AttributesOfInvariant(init);
      InvariantWidens(AttributesOf(init), segments, |segments| - 1);
      SegmentAttributesKeeps(AttributesOf(init), segments, |segments| - 1);
    }
  }

  /** A segment that is not DEF leaves the map as it is. */
  lemma OnlyDefSegmentsCount(attrs: map<string, seq<Attribute>>, s: Segment)
    requires s.kind != DEF
    ensures SegmentAttributes(attrs, s) == attrs
  {
  }

  /** The split before a '.' takes away nothing from a list the second
      pattern captured, since `[\w,\s]` has no '.'. */
  lemma BeforeDotKeepsList(t: string, v: nat)
    requires v <= |t| && ListGroup2(t, v, ListVerbs2).Some?
    ensures BeforeDot(ListGroup2(t, v, ListVerbs2).value) == ListGroup2(t, v, ListVerbs2).value
  {
    ListGroup2NoDot(t, v, ListVerbs2);
  }

  lemma {:induction false} ListGroup2NoDot(t: string, v: nat, verbs: seq<string>)
    requires v <= |t|
    ensures ListGroup2(t, v, verbs).Some? ==> forall k | 0 <= k < |ListGroup2(t, v, verbs).value| :: ListGroup2(t, v, verbs).value[k] != '.'
    decreases |verbs|
  {
    if verbs != [] {
      ListGroup2NoDot(t, v, verbs[1..]);
    }
  }
}
