# Requirements-to-UML: a verified model of the text-to-domain-model pipeline

This project is a Dafny model of the deterministic core of Requirements-to-UML. That core turns requirement text into a UML domain model:

1. The text is split into trimmed, non-blank lines, numbered `S1..Sn`.
2. Each line is labelled REQ, DEF, CON or INFO by an ordered rule chain.
3. The INFO lines are dropped.
4. Pattern heuristics then produce:
   - candidate classes, gated by word tables;
   - attributes and their types, taken from DEF lines;
   - associations between classes, with cardinalities.
5. The pieces are assembled into one model: classes sorted by name, the echoed segments and quality counts.

The model also covers the arithmetic that sizes a class box on a Miro board, and the HTML content of that box.

Modules follow the source files:

| module | file | models |
|---|---|---|
| `Text` | text.dfy | ASCII character classes, `str.strip`, `str.lower`, `\b` word boundaries, substring tests |
| `StringOrder` | string_order.dfy | Python's `<` on strings and `sorted` over a set of strings |
| `Filter` | filter.dfy | app/filter.py |
| `Concepts` | concepts.dfy | the word tables, `_normalize_class_name`, `_is_likely_attribute` and `_ok_concept` of app/extract.py |
| `ClassExtraction` | classes.dfy | `extract_candidate_classes` |
| `AttributeExtraction` | attributes.dfy | `extract_attributes`, `_extract_attribute_names`, `_infer_data_type` |
| `RelationPatterns` | patterns.dfy | the four relation regexes, the prefix cleaning and `_infer_cardinality` |
| `RelationExtraction` | relations.dfy | `extract_relations`: the variant table, the four strategies, the per-segment and the global deduplication |
| `ModelBuilder` | model_builder.dfy | app/model_builder.py |
| `MiroBox` | miro_box.dfy | `estimate_height`, `estimate_width` and the content loop of `create_class_box` |

Each loop in the source is a Dafny `method` with a `for` or `while` loop. Such a method is proved equal to a specification function, which is the fold the loop computes. The modelled loops are:
- the segment numbering;
- the class-map, attribute-map and relation loops;
- the variant table;
- the nested bridge loops with their `break`;
- the target search;
- the pair deduplication;
- the class list of the builder;
- the box content.

The properties are then proved about these functions. The pure rule chains (`label_sentence`, `_ok_concept`, `_infer_data_type`, `_infer_cardinality`) are functions, and their precedence is stated as lemmas.

Character model:
- Text is ASCII.
- `\w` is `[A-Za-z0-9_]`.
- `\s` and `str.isspace` are the code points 9–13 and 28–32.
- `splitlines` breaks at 10–13 and 28–30.
- `lower` and `capitalize` map only A–Z and a–z.

The word tables are sequences searched entry by entry; `Text.OneOfIn` shows that this search is Python's membership test.

Every regex of the core is an explicit scanner that follows Python's backtracking order:
- Lazy groups take the shortest extension that lets the rest match.
- Alternatives are tried left to right.
- `re.finditer` resumes at the end of each match.

Segments never contain a line break (`Filter.SegmentedTextWellFormed`). So `.` in the extraction patterns matches any character, and `$` is the end of the text.

## Model

| member | source | states |
|---|---|---|
| Text.StripShape | app/filter.py:64 | `strip` yields a slice of the input that is empty exactly when the input is blank; otherwise it does not begin or end with white space, and only white space was cut |
| Text.StripIdempotent | app/filter.py:93 | stripping a stripped line changes nothing |
| Text.DecimalRoundTrip | app/filter.py:101 | the decimal digits written for `i` in `f"S{i}"` read back as `i` |
| Text.OneOfIn | app/extract.py:84 | the search of a word table succeeds exactly when the word is one of the table's entries, as Python's `in` |
| Text.ContainsAnyExists | app/extract.py:244-255 | the search succeeds exactly when some word of the list occurs in the text, as `any(x in s for x in ws)` |
| Text.EndsWithAnyExists | app/extract.py:62 | the search succeeds exactly when the text ends with some word of the list |
| Filter.BlankIsInfo | app/filter.py:64-66 | a blank or whitespace-only text strips to empty and is labelled INFO |
| Filter.LabelPrecedence | app/filter.py:59-84 | the first matching rule wins: requirement id gives REQ, then definition markers give DEF, then constraint markers give CON; INFO exactly when the stripped text is empty or no rule (modal verbs included) matches |
| Filter.RequirementIdPrefixIsReq | app/filter.py:51 | any text beginning with `REQ-` and digits is REQ, whatever DEF or CON markers follow |
| Filter.GlossaryPrefixIsDef | app/filter.py:36 | any text beginning with the word "Glossary" is DEF, whatever constraint or modal words follow |
| Filter.LabelSentence | app/filter.py:59-84 | `label_sentence` as a function: the strip, then the id, DEF, CON and modal rules in order; `Filter.LabelPrecedence` states its precedence and its INFO condition |
| Filter.SplitIntoCandidates | app/filter.py:87-94 | the candidates are the lines of the text, trimmed, in order, with the blank ones dropped; their number is the number of lines that are not blank after trimming |
| Filter.SplitLinesRoundTrip | app/filter.py:93 | the lines are one more than the line breaks, and joining the lines back with the breaks between them gives the text back |
| Filter.CandidateShape | app/filter.py:93-94 | every candidate is non-empty, neither begins nor ends with white space, and holds no line break |
| Filter.SegmentText | app/filter.py:97-104 | one segment per candidate, in order; segment `i` has id `"S" + (i+1)`, the candidate as text and `label_sentence` of it as label |
| Filter.LabelCandidates | app/filter.py:99-103 | the loop yields one segment per candidate, in order; segment `i` is numbered `i+1`, holds the candidate and its label |
| Filter.SegmentIdPosition | app/filter.py:101 | a segment id reads back as its number, so distinct positions give distinct ids |
| Filter.SegmentedTextWellFormed | app/filter.py:97-104 | the ids of the segments are pairwise distinct, and every text is non-empty without a line break |
| Filter.FilterRelevant | app/filter.py:107-112 | the kept segments are exactly the input segments that are not INFO, and no more of them |
| Filter.FilterRelevantIsSubsequence | app/filter.py:112 | the kept segments are a subsequence of the input, order kept |
| Filter.FilterRelevantCounts | app/filter.py:112 | each segment that is not INFO is kept as many times as it occurs in the input, and an INFO segment never |
| Filter.QualityMetrics | app/filter.py:115-123 | `num_segments` and `kept_segments` are the two lengths; the ratio is 0 for no segments, is kept/total otherwise and lies in [0, 1] when kept ≤ total |
| StringOrder.LessTransitive | app/model_builder.py:21 | Python's string `<` is transitive |
| StringOrder.LessTotal | app/model_builder.py:21 | any two distinct strings are ordered one way or the other |
| StringOrder.Sorted | app/model_builder.py:25 | `sorted` over a set of strings is strictly ascending, holds exactly the set's elements and has the set's size |
| Concepts.NormalizeIdempotent | app/extract.py:37-48 | normalising a normalised name changes nothing |
| Concepts.NormalizeChangesCaseOnly | app/extract.py:37-48 | normalising keeps the length and the lower-cased text; a name matching `^[A-Z][a-z]+[A-Z]` is returned unchanged; any other name gets its first letter upper-cased and the rest lower-cased; the result never starts with a lower-case letter |
| Concepts.CapitalizedIsNotCamel | app/extract.py:48 | a capitalised name never matches `^[A-Z][a-z]+[A-Z]` |
| Concepts.NormalizedIsNotLowerCamel | app/extract.py:66 | a normalised name never matches the lower-camel attribute shape `^[a-z]+[A-Z][a-zA-Z]*$` |
| Concepts.NormalizeClassName | app/extract.py:37-48 | `_normalize_class_name` as a function; `Concepts.NormalizeChangesCaseOnly` and `Concepts.NormalizeIdempotent` state its behaviour |
| Concepts.IsLikelyAttribute | app/extract.py:51-67 | `_is_likely_attribute` as a predicate: a keyword, a listed suffix or the lower-camel shape; `Concepts.OkConceptBounds` and `Concepts.OnlyAddressIsKeyword` state its effect on the gate |
| Concepts.OkConceptBounds | app/extract.py:72-104 | an accepted token has length ≥ 3; unless it is "Address" its lower case is not a stopword, not all digits, not requirement-id shaped (`req-12`), not a dashed number (`order-12`), not on the denylist, and the token is not attribute-like |
| Concepts.OkConcept | app/extract.py:72-104 | `_ok_concept` as a predicate: the "Address" exception, then the length, stopword, digit, id, dashed-number, denylist and attribute tests in order; `Concepts.OkConceptBounds` states what it guarantees |
| Concepts.DashedNumberRejected | app/extract.py:93-94 | "Order-12" is a dashed number, so `_ok_concept` rejects it |
| Concepts.OnlyAddressIsKeyword | app/extract.py:76-78 | the only accepted token whose lower case is an attribute keyword is "Address" |
| Concepts.IdWithPrefixExists | app/extract.py:90 | the requirement-id test holds exactly when the text starts with one of the prefixes, followed by the separator and digits up to its end |
| ClassExtraction.DefClassFrom | app/extract.py:118-121 | a match of the DEF pattern ("DEF", an article A, An or The, then `[A-Z][a-zA-Z]+`) captures an upper-case letter followed by at least one more letter |
| ClassExtraction.EntityMatchesFrom | app/extract.py:130-133 | every `findall` capture is two or more lower-case letters, optionally followed by one capitalised hump |
| ClassExtraction.GateEntitiesSound | app/extract.py:134-137 | every name a REQ/CON line adds passes `_ok_concept` and is the normalised form of a capture longer than 3 |
| ClassExtraction.SegmentClassNamesSound | app/extract.py:111-137 | every name a segment contributes passes `_ok_concept`, and an INFO segment contributes none |
| ClassExtraction.DefLineContributesOne | app/extract.py:115-126 | a DEF line contributes at most one name, the normalised DEF capture |
| ClassExtraction.RequirementLineNames | app/extract.py:129-137 | a name comes from a REQ or CON line exactly when it is the normalised form of some entity capture that is longer than 3 and whose normalised form passes `_ok_concept` |
| ClassExtraction.GateEntitiesExact | app/extract.py:134-137 | the gate over a list of captures yields exactly the normalised forms of the captures it admits |
| ClassExtraction.SegmentClassNames | app/extract.py:111-137 | the names one segment contributes, in order; `ClassExtraction.SegmentClassNamesSound`, `ClassExtraction.DefLineContributesOne` and `ClassExtraction.RequirementLineNames` state them |
| ClassExtraction.RecordEntities | app/extract.py:134-137 | the inner loop adds the segment id under each accepted name, in order |
| ClassExtraction.ExtractCandidateClasses | app/extract.py:107-139 | the loop computes the class map of the segments |
| ClassExtraction.ClassMapOf | app/extract.py:107-139 | the class map over a segment list, as a fold over the segments; `ClassExtraction.ClassMapExact` states its keys and ids |
| ClassExtraction.ClassMapExact | app/extract.py:107-139 | a name is a key exactly when some segment contributes it, and an id is recorded under it exactly when that segment contributes it |
| ClassExtraction.ClassMapKeysAccepted | app/extract.py:111-137 | every key passes `_ok_concept`, and every id under it belongs to a non-INFO input segment |
| AttributeExtraction.InferDataTypeIgnoresContext | app/extract.py:234 | the inferred type depends on the name only |
| AttributeExtraction.InferDataType | app/extract.py:234-272 | `_infer_data_type` as a function; `AttributeExtraction.InferDataTypeOrder` states its rule order |
| AttributeExtraction.InferDataTypeOrder | app/extract.py:234-272 | rules in order, first wins: an "id" suffix gives int; Date exactly when no "id" suffix and a date word; decimal exactly when neither of those and a money word; boolean exactly when none of those, no count word and a flag word; String exactly when no rule fires |
| AttributeExtraction.CountWordsAreInt | app/extract.py:251-252 | a name containing "count" is an int when no earlier rule fires |
| AttributeExtraction.CountryIsInt | app/extract.py:251-252 | "country" is typed int |
| AttributeExtraction.SplitPartsShape | app/extract.py:197 | no part of the split at commas and at the word "and" holds a comma, and a text with no comma and no word "and" is its own single part |
| AttributeExtraction.IdentifierFrom | app/extract.py:207 | the captured name starts with a lower-case letter and consists of word characters |
| AttributeExtraction.PartCandidateSound | app/extract.py:199-222 | an accepted part yields a name of length ≥ 3 that starts lower-case and is neither a stopword nor one of user/person/item/thing/object/has/includes/contains/with; its type is the inferred one, and its source is the segment |
| AttributeExtraction.MergeAllSpec | app/extract.py:224-231 | merging keeps the existing list as a prefix and keeps names unique ignoring case; every candidate's name ends up present; every appended entry is the first candidate with its name and was absent before |
| AttributeExtraction.MergeAll | app/extract.py:224-231 | the per-class deduplicating merge as a function; `AttributeExtraction.MergeAllSpec` states it |
| AttributeExtraction.ExtractAttributeNames | app/extract.py:194-231 | only the class's list changes, and it becomes the merge of the old list with the part candidates |
| AttributeExtraction.ClassHead | app/extract.py:160 | the head of both attribute patterns (an article, blanks, `[A-Z][a-zA-Z]+`, blanks) captures at least two letters followed by white space |
| AttributeExtraction.ListTail1 | app/extract.py:160 | the first pattern's list text holds no '.' |
| AttributeExtraction.ListTailDropsArticleA | app/extract.py:160 | the optional article group tries "a" before "an", so " an email" yields "n email" |
| AttributeExtraction.ListGroup2NoDot | app/extract.py:176 | the second pattern's `[\w,\s]+` group holds no '.' |
| AttributeExtraction.BeforeDotKeepsList | app/extract.py:188 | `split('.')[0]` leaves the second pattern's group unchanged |
| AttributeExtraction.RecordAttributes | app/extract.py:170-171 | `setdefault` followed by the name extraction is one recording step |
| AttributeExtraction.ExtractAttributes | app/extract.py:142-191 | the loop computes the attribute map of the segments |
| AttributeExtraction.SegmentAttributes | app/extract.py:148-191 | what one segment does to the attribute map: nothing unless it is DEF, else the first pattern, then the fallback; `AttributeExtraction.OnlyDefSegmentsCount` and `AttributeExtraction.RecordListKeeps` state its effect |
| AttributeExtraction.OnlyDefSegmentsCount | app/extract.py:150-151 | a segment that is not DEF leaves the attribute map unchanged |
| AttributeExtraction.RecordListKeeps | app/extract.py:169-171 | recording under an accepted class keeps the invariant: accepted keys, unique names per class ignoring case, well-formed attributes from DEF segments |
| AttributeExtraction.AttributesOfInvariant | app/extract.py:142-231 | the attribute map of any segment list satisfies that invariant |
| RelationPatterns.CleanPrefix | app/extract.py:302 | removing the requirement-id prefix leaves a suffix of the lowered text |
| RelationPatterns.CleanPrefixKeepsPlainText | app/extract.py:302 | a text without such a prefix is left as it is |
| RelationPatterns.ModalRest | app/extract.py:309 | a match of the part after the subject gives ordered, in-range positions for the verb, the object and the end |
| RelationPatterns.ModalMatchAt | app/extract.py:309 | a modal match starting at a position ends after it and within the text |
| RelationPatterns.SubjectEnd | app/extract.py:309 | the lazy subject ends at the first position from which the rest of the pattern matches |
| RelationPatterns.ModalMatchesOrdered | app/extract.py:311 | `finditer` matches end at strictly increasing positions |
| RelationPatterns.SubjectVerbBounds | app/extract.py:362 | a match of the third or fourth pattern has the subject and the verb as non-empty runs of word characters, in that order, ending after its start and within the text |
| RelationPatterns.SubjectVerbAt | app/extract.py:362 | a match of the third or fourth pattern starting at a position ends after it and within the text |
| RelationPatterns.BridgeVerbIsWord | app/extract.py:342 | a bridge match has the verb as a whole word between two non-word characters |
| RelationPatterns.Bridge | app/extract.py:342 | the bridge pattern as a predicate on the text, the two variants and the verb; `RelationPatterns.BridgeVerbIsWord` states its shape |
| RelationPatterns.SubjectVerbWords | app/extract.py:362 | the "shall be able to" and "must be … to" captures are non-empty runs of word characters |
| RelationPatterns.InferCardinality | app/extract.py:442-460 | the source is always "1" and the target is one of "1", "1..*", "0..*" |
| RelationPatterns.InferCardinalityPrecedence | app/extract.py:447-460 | target "1" exactly when "exactly one" occurs; "1..*" exactly when it does not but "one or more" does; "0..*" otherwise |
| RelationExtraction.SpacedFromShape | app/extract.py:282 | the spaced variant adds one blank per lower-upper hump, and a name without humps is kept as it is |
| RelationExtraction.LookupUnique | app/extract.py:317 | in a table with unique keys, `get` returns the value stored with the key |
| RelationExtraction.PutSpec | app/extract.py:281-286 | assigning a key keeps keys unique; the key now maps to the new value and others are unchanged; a present key keeps its position, a new one is appended |
| RelationExtraction.BuildVariants | app/extract.py:279-286 | the loop computes the variant table of the names |
| RelationExtraction.VariantsSound | app/extract.py:279-286 | every value of the variant table is a class name, and every class's lower-cased name is a key |
| RelationExtraction.FirstVerb | app/extract.py:341-356 | the verb found is a listed verb for which the bridge pattern matches |
| RelationExtraction.FirstVerbNone | app/extract.py:341-356 | no verb is found exactly when no listed verb from the start position bridges the pair |
| RelationExtraction.FirstVerbFirst | app/extract.py:341-356 | a verb found is the first listed verb that bridges the pair: every earlier one fails |
| RelationExtraction.FirstTarget | app/extract.py:376-379 | the target found differs from the source and is a value of the table |
| RelationExtraction.FirstTargetFirst | app/extract.py:375-379 | no target is found exactly when no entry of the table occurs in the rest of the text with a class other than the source; a target found is the first such entry |
| RelationExtraction.FindTarget | app/extract.py:375-379 | the search loop with `break` yields the first qualifying target |
| RelationExtraction.ModalCandidatesGood | app/extract.py:317-320 | strategy 1 candidates join two different class names from the table |
| RelationExtraction.SubjectVerbCandidatesGood | app/extract.py:368-381 | strategy 3 and 4 candidates join two different class names from the table |
| RelationExtraction.SegmentCandidatesGood | app/extract.py:309-427 | every candidate of a segment joins two different class names from the table |
| RelationExtraction.SegmentCandidates | app/extract.py:309-427 | the candidates of one segment, strategies 1 to 4 in order; `RelationExtraction.SegmentCandidatesGood` states them |
| RelationExtraction.RecordAllSpec | app/extract.py:320-331 | recording keeps earlier relations as a prefix; each new relation comes from a candidate; its (source, target, verb) triple was not already found and is now; the new triples are pairwise distinct |
| RelationExtraction.Record | app/extract.py:321-331 | one candidate is appended only when its triple is new in the segment |
| RelationExtraction.RecordModal | app/extract.py:311-331 | the strategy 1 loop records its candidates in `finditer` order |
| RelationExtraction.RecordCell | app/extract.py:341-356 | the verb loop records the first matching verb for a variant pair, then stops |
| RelationExtraction.RecordRow | app/extract.py:337-356 | the inner variant loop skips same-class pairs and records each cell in order |
| RelationExtraction.RecordBridges | app/extract.py:336-356 | the nested variant loops record strategy 2 in table order |
| RelationExtraction.RecordSubjectVerb | app/extract.py:364-427 | the strategy 3 or 4 loop records its candidates in `finditer` order |
| RelationExtraction.CollectedOf | app/extract.py:297-331 | the relations collected over the segments before the pair filter, each non-INFO segment with its own set of found triples; `RelationExtraction.ExtractRelations` and `RelationExtraction.RelationsSound` state it |
| RelationExtraction.KeepFirstPairsExact | app/extract.py:429-439 | the deduplicated list is exactly the relations whose unordered pair did not occur earlier, in order |
| RelationExtraction.KeepFirstPairsSpec | app/extract.py:429-439 | after deduplication no two relations join the same unordered pair, every pair still occurs, and every relation comes from the input |
| RelationExtraction.KeepFirstPairs | app/extract.py:429-439 | the pair filter as a fold; `RelationExtraction.KeepFirstPairsExact` and `RelationExtraction.KeepFirstPairsSpec` state it |
| RelationExtraction.Deduplicate | app/extract.py:430-437 | the `seen_pairs` loop computes the deduplicated list |
| RelationExtraction.ExtractRelations | app/extract.py:275-439 | the whole procedure computes the deduplicated relations collected over the segments |
| RelationExtraction.RelationsSound | app/extract.py:275-439 | every relation has source ≠ target, both endpoints among the class names, type "association" and a single non-INFO segment as source; pairs are unique |
| ModelBuilder.BuildClasses | app/model_builder.py:20-26 | one class entry per sorted name, in that order |
| ModelBuilder.BuildDomainModel | app/model_builder.py:10-51 | the procedure computes the model of the document |
| ModelBuilder.ModelOf | app/model_builder.py:10-51 | the model `build_domain_model` returns, as a value; the `Model…` lemmas state its properties |
| ModelBuilder.ModelHeader | app/model_builder.py:28-49 | the metadata holds the id, time and version "0.1"; all segments are echoed; `num_classes` is the number of classes, which is the number of class-map keys; the filter counts come from `quality_metrics`; `num_relations` is the number of relations |
| ModelBuilder.ModelNames | app/model_builder.py:21 | the class names are the sorted keys of the class map over the kept segments |
| ModelBuilder.ModelClasses | app/model_builder.py:14-21 | class names are strictly ascending, are exactly the class-map keys and all pass `_ok_concept` |
| ModelBuilder.ModelClassSources | app/model_builder.py:25 | each class's name is a class-map key, and its source ids are exactly the ids the class map holds for that name: strictly ascending, non-empty and ids of non-INFO input segments |
| ModelBuilder.ClassMapSources | app/extract.py:107-139 | every name of the class map over the relevant segments has at least one id, and each id is that of a non-INFO input segment |
| ModelBuilder.ModelAttributes | app/model_builder.py:24 | each class lists the attribute map's list for its name, or none when the map has no such key; every listed attribute is well formed and read from a DEF input segment; names are unique per class ignoring case |
| ModelBuilder.AttributeMapSources | app/extract.py:142-231 | in the attribute map over the relevant segments, names are unique per class ignoring case, and every attribute is well formed and read from a DEF input segment |
| ModelBuilder.ModelRelations | app/model_builder.py:18 | every relation joins two different classes of the model, is an association read from a non-INFO segment, and pairs are unique |
| ModelBuilder.RelationSources | app/extract.py:275-439 | every relation over the relevant segments joins two different sorted class names, is an association read from a non-INFO input segment, and pairs are unique |
| ModelBuilder.SegmentIdsSortAsText | app/model_builder.py:25 | ids sort as strings: "S10" comes before "S2" |
| MiroBox.EstimateHeight | app/miro_client.py:20-24 | the line count is read back exactly from the height, and a non-negative count gives at least the 50 px padding |
| MiroBox.EstimateHeightStep | app/miro_client.py:20-24 | each extra line adds exactly 20 px |
| MiroBox.Longest | app/miro_client.py:30 | the longest length bounds the name and every attribute, and is the length of one of them |
| MiroBox.EstimateWidth | app/miro_client.py:27-39 | the width is at least the minimum and at most 600 when the minimum is; it is the minimum, 600 or `40 + 10 * longest`: exactly the latter when that lies between the two, 600 when it exceeds 600 and the minimum does not, and the minimum when it is below the minimum or 600 is |
| MiroBox.EstimateWidthMonotone | app/miro_client.py:27-39 | adding an attribute never makes the box narrower |
| MiroBox.DefaultWidthRange | app/miro_client.py:27 | with the default minimum the width lies in [220, 600] |
| MiroBox.LeadsWithStripped | app/miro_client.py:69 | the first non-space character test is `attr.strip().startswith(c)` |
| MiroBox.AttributeLine | app/miro_client.py:69-72 | the paragraph for one attribute, dash added when missing |
| MiroBox.Item | app/miro_client.py:69-72 | the text of one attribute item, with "- " put in front unless its first non-blank character is '-'; `MiroBox.ItemIsDashed` and `MiroBox.ItemIdempotent` state it |
| MiroBox.BoxContent | app/miro_client.py:66-72 | the content is the bold name, the divider, then one paragraph per attribute in order |
| MiroBox.ItemIsDashed | app/miro_client.py:68-72 | every attribute line, stripped, starts with '-', and ends with the attribute's own text |
| MiroBox.ItemIdempotent | app/miro_client.py:69 | an attribute already shown as an item gets no second dash |
| MiroBox.ItemsAppend | app/miro_client.py:67-72 | the content for more attributes extends the content for fewer |
| MiroBox.BoxSize | app/miro_client.py:57-60 | the width lies in [220, 600], and the height is 90 + 20 × the number of attributes (name, divider and one line each) |

## Left out

- File reading, PDF and DOCX parsing (app/file_processor.py), the HTTP endpoints (app/main.py), the tool server (app/mcp_server.py) and the board layout and connectors (app/miro_visualizer.py): I/O and network, not part of this model.
- `get_headers`, `test_connection` and the `requests.post` in `create_class_box`: environment and network.
- `divider_for_width`: float scaling by 0.8 followed by `int`. The divider is a parameter of `MiroBox.BoxContent`.
- Box position (`x`, `y`) and the request payload: not part of this model.
- `created_at`: the wall-clock time is a parameter of `ModelBuilder.BuildDomainModel`.
- Filter.QualityMetrics: `round(ratio, 4)` is not modelled. The ratio is the exact rational kept/total.
- Unicode: every character test is the ASCII one given above. Non-ASCII characters are neither word characters nor white space, and case mapping leaves them alone.
- `.` in the extraction patterns matches any character. This is exact for segments, which never hold a line break; on raw multi-line text the source's `.` would stop at a newline.
- `splitlines` is modelled as a split at every break character, so "\r\n" gives an extra empty line. That line is then dropped as blank, so the candidates are those Python gives.
- `class_names` is a Python `set`, so the source iterates it in an unspecified order. That order decides:
  - which class wins a shared variant key;
  - the order of strategy 2's variant loops;
  - the target found by strategies 3 and 4.

  The model takes the names as a sequence. `ModelBuilder.BuildDomainModel` passes them sorted.
- `compound_variants` is an ordered association list. Assigning an existing key replaces its value in place, as a Python dict does.
- Field names that are Dafny keywords or clash with the source's other names are renamed:
  - a segment's `label` becomes `kind`;
  - a relation's `label` becomes `verb`;
  - a match's `object` becomes `objectPart`.
- Types are a five-value datatype, not the strings "int", "decimal", "boolean", "Date" and "String". `TypeName` gives each value's string.
- Dicts that the source mutates through a shared reference (`attrs` in `_extract_attribute_names`) are values that the methods return updated.
- `Segment.page` and `Segment.section` are echoed unchanged. `segment_text` sets them to 0 and "".
- The address example (app/test/test_address_extraction.py:4-17) supplies the sentence "DEF An Address contains street, city, state, postalCode, and country." and prints what the extractors return; it states no expected result. An account of that example with five String attributes would not match the code: "country" contains "count", so app/extract.py:251-252 types it int (`AttributeExtraction.CountryIsInt`). The model follows the code.
