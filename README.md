# eq-cir-converter-service, modelled in Dafny

The service converts questionnaire ("CIR") schemas to version 10.0.0. It does this by
rewriting selected string fields of the JSON tree. This project models that rewrite and
the request validators around it:

- **Markup primitives** (`Markup`). The fixed regular expressions of the converter are
  hand-written scanners with Python's leftmost, non-overlapping, lazy matching:
  - `<\s*b\s*>` and `<\s*/\s*b\s*>`, always case-insensitive;
  - `</?br>` and `</?p>`, case-insensitive in the converter and case-sensitive in
    `clean_text`;
  - `<p>(.*?)</p>` with `DOTALL`;
  - `\{(.*?)\}`, where `.` does not cross a line break.

  On top of the scanners sit `re.sub`, `re.findall`, `str.strip()`, the sanitiser, the
  paragraph splitter and the placeholder-name extractor.
- **The element transformer** (`Transform`, `Placeholders`). This is
  `process_item`/`process_element` and its helpers. There are two copies in the
  repository. `Transform.Variant` names them:
  - `V10` is `converters/v10.py`;
  - `Helper` is `utils/helper_utils.py`.

  The two differ in four places:
  - numbers, booleans and `null` raise `TypeError` in `V10` and pass through in `Helper`;
  - `Helper` only reads `placeholders` when it is a list;
  - `Helper` tests the expandable key's truth value, so it never expands by the key `""`;
  - `Helper` strips once more after sanitising, which changes nothing (`CleanAgrees`).
- **The path-driven rewrite** (`JsonPath`, `Rewrite`, `Converter`, `SchemaService`).
  - Paths of the dialect `$`, `.name`, `.*`, `[*]` are parsed.
  - Each pass rewrites every match in the schema:
    - a dictionary site is assigned;
    - a list site is assigned, or spliced when the processed value is a list.
  - The indices of list matches are the ones the path library computed before the pass.
    After a splice they are stale, exactly as in the code.
  - `convert_to_v10` and `transform_json_schema` are loops over the catalogue, proved
    against `Rewrite.Convert`.
- **Version gates** (`SchemaProcessor`, `SchemaService.ConvertSchema`). Only the target
  `"10.0.0"` rewrites. `convert_schema` first keeps the catalogue entries whose members
  are all strings.
- **`text_utils`** (`TextUtils`): the older, case-sensitive `clean_text`.
- **Validators** (`Validators`):
  - the strict pattern `^(0|[1-9]\d*)\.(0|[1-9]\d*)\.(0|[1-9]\d*)$`;
  - the loose pattern `^(\d+\.\d+\.\d+)$` combined with the expected-version check;
  - the empty-body check.

JSON values are `Json.Value`. An object is a sequence of members, so insertion order
decides which member is expandable and shows in results. Python exceptions are the
`Err` case of `Json.Result`.

## Model

| member | source | states |
|---|---|---|
| Json.PrependTwice | eq_cir_converter_service/converters/v10.py:223-243 | appending after `b` and then after `a` is appending after `a + b` |
| Json.Get | eq_cir_converter_service/converters/v10.py:263 | `d.get(k)` is present exactly when `k` is a key of `d` |
| Json.Assign | eq_cir_converter_service/converters/v10.py:263 | `d[k] = v` keeps the key order when `k` is present, and appends `k` otherwise |
| Json.AssignFrame | eq_cir_converter_service/converters/v10.py:263 | after `d[k] = v`, `d[k]` is `v` and every other key reads as before |
| Json.AssignGet | eq_cir_converter_service/converters/v10.py:263 | after `d[k] = v`, `d[k]` is `v` and any one other key reads as before |
| Json.AssignSame | eq_cir_converter_service/converters/v10.py:263 | assigning a key its own value leaves the dictionary unchanged |
| Json.AssignAt | eq_cir_converter_service/converters/v10.py:263 | assigning an existing key rewrites that member where it stands, and keeps every other member |
| Json.AssignInPlace | eq_cir_converter_service/converters/v10.py:263 | the same, for a dictionary written as the members before, the member, and the members after |
| Json.NatString | eq_cir_converter_service/services/validators/request_validator.py:20 | the decimal numeral of a natural number is never empty |
| JsonPath.NameRun | eq_cir_converter_service/converters/v10.py:44 | the longest prefix of name characters: every character in it is a name character, and the next one is not |
| JsonPath.Parse | eq_cir_converter_service/converters/v10.py:44 | a path that parses yields well-formed segments (non-empty member names) |
| JsonPath.ParseFormat | eq_cir_converter_service/converters/v10.py:44 | parsing the text of a path gives its segments back |
| JsonPath.SegmentsField | eq_cir_converter_service/converters/v10.py:44 | `.name` followed by more path reads as the member `name`, then the rest |
| JsonPath.SegmentsFormat | eq_cir_converter_service/converters/v10.py:44 | the segment text of a path reads back as those segments |
| JsonPath.RelativePath | eq_cir_converter_service/converters/v10.py:44 | a path without the `$` root marker reads as the same path with it |
| Markup.TrimStart | eq_cir_converter_service/converters/v10.py:82 | dropping leading whitespace leaves a result that is empty or starts with a non-space |
| Markup.TrimEnd | eq_cir_converter_service/converters/v10.py:82 | dropping trailing whitespace leaves a prefix of the input that is empty or ends with a non-space |
| Markup.Trim | eq_cir_converter_service/converters/v10.py:82 | `strip()` leaves no whitespace at either end |
| Markup.TrimUnique | eq_cir_converter_service/converters/v10.py:82 | any split into whitespace, a middle with non-space ends, and whitespace has `strip()` equal to that middle |
| Markup.TrimIdempotent | eq_cir_converter_service/converters/v10.py:82 | stripping twice is stripping once |
| Markup.TrimStartSkips | eq_cir_converter_service/converters/v10.py:82 | leading whitespace is skipped up to the first non-space |
| Markup.TrimEndSkips | eq_cir_converter_service/converters/v10.py:82 | trailing whitespace is dropped back to the last non-space |
| Markup.SkipSpaces | eq_cir_converter_service/converters/v10.py:11-12 | the end of a run of `\s*` lies between the start and the end of the text |
| Markup.SkipSpacesOver | eq_cir_converter_service/converters/v10.py:11-12 | `\s*` consumes exactly the `n` whitespace characters in front of a non-space |
| Markup.SpacesThen | eq_cir_converter_service/converters/v10.py:11-12 | `\s*` followed by the letter ends inside the text, or is absent (0) |
| Markup.SpacesThenOver | eq_cir_converter_service/converters/v10.py:11-12 | after `n` whitespace characters the letter is consumed, and the match ends right after it |
| Markup.BoldOpenEnd | eq_cir_converter_service/converters/v10.py:11 | a match of `<\s*b\s*>` at the start is at least 3 characters long and lies inside the text, or is absent |
| Markup.BoldCloseEnd | eq_cir_converter_service/converters/v10.py:12 | a match of `<\s*/\s*b\s*>` is at least 4 characters long, or is absent |
| Markup.LineBreakEnd | eq_cir_converter_service/converters/v10.py:14 | a match of `</?br>` is at least 4 characters long, or is absent |
| Markup.ParagraphEnd | eq_cir_converter_service/converters/v10.py:13 | a match of `</?p>` is at least 3 characters long, or is absent |
| Markup.MatchTag | eq_cir_converter_service/converters/v10.py:11-14 | every tag match starts with `<`, is at least 3 characters long and lies inside the text |
| Markup.SubstituteNoTag | eq_cir_converter_service/converters/v10.py:62-71 | text with no `<` is left unchanged by every substitution |
| Markup.SubstitutePlainPrefix | eq_cir_converter_service/converters/v10.py:62-71 | text without `<` in front of the rest is copied, and only the rest is substituted |
| Markup.KeptPiece | eq_cir_converter_service/converters/v10.py:62-71 | a piece whose `<` starts no match, and which holds no other `<`, is copied |
| Markup.KeptWhenUnmatched | eq_cir_converter_service/converters/v10.py:62-71 | a text whose only `<` is unmatched is left unchanged |
| Markup.BoldOpenMatchAt | eq_cir_converter_service/converters/v10.py:11 | the match of `<`, `n1` spaces, `b`/`B`, `n2` spaces, `>` is `n1 + n2 + 3` characters long |
| Markup.BoldOpenReplaced | eq_cir_converter_service/converters/v10.py:11 | `<b>`, `<B>`, `< b >` and every other whitespace spelling become `<strong>`, and the scan resumes after the tag |
| Markup.BoldCloseMatchAt | eq_cir_converter_service/converters/v10.py:12 | the match of `<`, spaces, `/`, spaces, the letter, spaces, `>` covers exactly those characters |
| Markup.BoldCloseReplaced | eq_cir_converter_service/converters/v10.py:12 | `</b>`, `</B>`, `< / b >` and the like become `</strong>` |
| Markup.ParagraphTagDeleted | eq_cir_converter_service/converters/v10.py:13 | `<p>` and `</p>` are deleted; so are `<P>` and `</P>` when case is ignored |
| Markup.LineBreakTagDeleted | eq_cir_converter_service/converters/v10.py:14 | `<br>` and `</br>` in any spelling that the case setting allows are deleted |
| Markup.UpperParagraphKeptWhenCaseSensitive | eq_cir_converter_service/utils/text_utils.py:38 | the case-sensitive paragraph pattern does not match `<P>`: its `<` is kept |
| Markup.Sanitise | eq_cir_converter_service/converters/v10.py:56-71 | the sanitised text has no whitespace at either end |
| Markup.SanitiseTagFree | eq_cir_converter_service/converters/v10.py:56-71 | text without markup is only stripped: nothing else is touched |
| Markup.SanitiseNotIdempotent | eq_cir_converter_service/converters/v10.py:56-71 | sanitising `<<p>p>` gives `<p>`, and sanitising that gives `""`, so sanitising is not idempotent |
| Markup.SanitiseJoinsTag | eq_cir_converter_service/converters/v10.py:56-71 | sanitising `<<p>p>` (or `<</p>/p>`) joins the two halves into a paragraph tag |
| Markup.JoinedTagPasses | eq_cir_converter_service/converters/v10.py:62-70 | in `<<p>p>` only the paragraph pass changes anything |
| Markup.JoinedTagKept | eq_cir_converter_service/converters/v10.py:62-70 | the bold and line-break passes leave `<<p>p>` as it is |
| Markup.JoinedTagParagraphPass | eq_cir_converter_service/converters/v10.py:62-63 | the paragraph pass deletes the inner tag of `<<p>p>` |
| Markup.NoMatchBeforeParagraph | eq_cir_converter_service/converters/v10.py:11-14 | no bold or line-break pattern matches at `<<`, `<p` or `</p` |
| Markup.SanitiseWrapped | eq_cir_converter_service/converters/v10.py:56-71 | `<`-free pieces wrapped in `<p>…</p>` sanitise to the pieces run together and stripped as one text: the bold and line-break passes find nothing and the paragraph pass deletes every tag |
| Markup.SanitiseTag | eq_cir_converter_service/converters/v10.py:56-71 | a lone `<p>` or `</p>` sanitises to nothing |
| Markup.SanitiseBold | eq_cir_converter_service/converters/v10.py:56-71 | a bold span in plain text comes out of the whole sanitiser as a strong span: `u<b>x</b>w` sanitises to `u<strong>x</strong>w` stripped, the line-break and paragraph passes leaving the strong tags alone |
| Markup.FindTag | eq_cir_converter_service/converters/v10.py:15 | the leftmost paragraph tag found lies wholly inside the text |
| Markup.FindTagLeftmost | eq_cir_converter_service/converters/v10.py:15 | what is found is a tag, and no tag starts before it |
| Markup.FindTagAt | eq_cir_converter_service/converters/v10.py:15 | the leftmost tag is at `k` when a tag is at `k` and none starts before it |
| Markup.ScanFirst | eq_cir_converter_service/converters/v10.py:15 | when a scan finds a span, its result is that span's inner text and then the scan of a strictly shorter rest |
| Markup.RawParagraphsNoClosing | eq_cir_converter_service/converters/v10.py:15 | no paragraph found holds a `</p>`: matching is lazy |
| Markup.PrefixNoClosing | eq_cir_converter_service/converters/v10.py:15 | the text before the first `</p>` holds no `</p>` |
| Markup.RawParagraphsCons | eq_cir_converter_service/converters/v10.py:15 | a `<p>…</p>` span whose text holds no `</p>` is found whole, and the scan goes on after it |
| Markup.CleanParagraphs | eq_cir_converter_service/converters/v10.py:82 | stripped, blank ones dropped: every kept paragraph is non-empty and stripped, and none is added |
| Markup.SplitParagraphs | eq_cir_converter_service/converters/v10.py:74-82 | every paragraph returned is non-empty and stripped |
| Markup.TagFreeHasNoParagraph | eq_cir_converter_service/converters/v10.py:15 | text without `<` has no paragraph span and no closing tag |
| Markup.NoClosingTagBefore | eq_cir_converter_service/converters/v10.py:15 | no `</p>` starts inside a piece that holds none and is followed by `<` |
| Markup.WrapHasParagraph | eq_cir_converter_service/converters/v10.py:192 | wrapped paragraphs are found by the paragraph search |
| Markup.SplitWrap | eq_cir_converter_service/converters/v10.py:74-82 | splitting inverts wrapping: stripped, non-empty paragraphs without `</p>` come back exactly and in order |
| Markup.CleanParagraphsAppend | eq_cir_converter_service/converters/v10.py:82 | cleaning a concatenation cleans the parts and concatenates them |
| Markup.CleanParagraphsMembers | eq_cir_converter_service/converters/v10.py:82 | a paragraph is kept exactly when it is the non-blank stripped form of some input paragraph |
| Markup.SplitParagraphsCons | eq_cir_converter_service/converters/v10.py:74-82 | a span `<p>p</p>` at the front yields `p` stripped, or nothing when `p` is blank, followed by the paragraphs of the rest |
| Markup.SplitWrapped | eq_cir_converter_service/converters/v10.py:74-82 | splitting wrapped pieces without `</p>` strips each piece and drops the blank ones, in order |
| Markup.NestedParagraphs | eq_cir_converter_service/converters/v10.py:74-82 | `<p><p>A</p></p>` splits into the one paragraph `<p>A`: the lazy match stops at the first `</p>` and the outer `</p>` is left over |
| Markup.FindBraceClose | eq_cir_converter_service/converters/v10.py:16 | the `}` found lies inside the text |
| Markup.PlaceholderNames | eq_cir_converter_service/converters/v10.py:85-91 | no name found contains `}` or a line break |
| Markup.PlaceholderNamesSkip | eq_cir_converter_service/converters/v10.py:16 | text without `{` contributes no names |
| Markup.FindBraceCloseAfter | eq_cir_converter_service/converters/v10.py:16 | the first `}` after a name without braces or line breaks is the one right after it |
| Markup.PlaceholderNamesCons | eq_cir_converter_service/converters/v10.py:16 | a `{name}` token yields `name`, and the scan resumes after the `}` |
| Markup.PlaceholderNamesThenText | eq_cir_converter_service/converters/v10.py:16 | a `{name}` token followed by text without `{` yields the name, and the scan goes on |
| Markup.PlaceholderNamesKeepDuplicates | eq_cir_converter_service/converters/v10.py:85-91 | `{a}…{b}…{a}` yields `[a, b, a]`: duplicates are kept, in order of appearance |
| Placeholders.Occurrences | eq_cir_converter_service/converters/v10.py:163 | the count of a name is at most the list's length, and positive exactly when the name occurs |
| Placeholders.Distinct | eq_cir_converter_service/converters/v10.py:163-165 | the distinct names are exactly the names of the list, and none is repeated |
| Placeholders.FirstIndex | eq_cir_converter_service/converters/v10.py:163-165 | the first occurrence holds the name, and no earlier position does |
| Placeholders.FirstIndexPrefix | eq_cir_converter_service/converters/v10.py:163-165 | the first occurrence does not depend on what follows it |
| Placeholders.DistinctInFirstOccurrenceOrder | eq_cir_converter_service/converters/v10.py:163-165 | `Counter` lists names in order of first occurrence |
| Placeholders.TallyDistinct | eq_cir_converter_service/converters/v10.py:163-165 | the tally lists no name twice, and gives each name its number of occurrences |
| Placeholders.TallyPositive | eq_cir_converter_service/converters/v10.py:163-165 | every count in the tally is positive |
| Placeholders.Iterate | eq_cir_converter_service/converters/v10.py:157-168 | `for x in placeholders`: a list yields its items; a string or a dictionary yields one non-dictionary element per character or key; a number, boolean or `null` raises `TypeError` |
| Placeholders.LastDefinition | eq_cir_converter_service/converters/v10.py:168-170 | the lookup fails with `AttributeError` exactly when some element is not a dictionary; a definition found defines the name |
| Placeholders.LastDefinitionIsLast | eq_cir_converter_service/converters/v10.py:168-170 | the definition chosen is the LAST element defining the name, and none is chosen only when no element defines it |
| Placeholders.FindLastDefinition | eq_cir_converter_service/converters/v10.py:166-170 | the inner loop computes the last matching definition |
| Placeholders.Attachments | eq_cir_converter_service/converters/v10.py:165-175 | a paragraph naming nothing gets no attachments; otherwise attaching fails exactly when some definition is not a dictionary |
| Placeholders.AttachDefinitions | eq_cir_converter_service/converters/v10.py:164-175 | the loop over the counted names computes the attachments |
| Placeholders.CountDefiningAppend | eq_cir_converter_service/converters/v10.py:173-175 | the count of definitions of a name is additive over concatenation |
| Placeholders.CountDefiningCopies | eq_cir_converter_service/converters/v10.py:173-175 | `count` copies of a definition define its name `count` times and no other name |
| Placeholders.CountOfDistinct | eq_cir_converter_service/converters/v10.py:163-165 | in a tally without repeated names, the count of a listed name is its entry's count |
| Placeholders.CountOfAbsent | eq_cir_converter_service/converters/v10.py:163-165 | a name absent from a tally has count 0 |
| Placeholders.AttachmentsCount | eq_cir_converter_service/converters/v10.py:165-175 | a defined name is attached as often as the tally counts it; an undefined one never |
| Placeholders.AttachedMultiplicity | eq_cir_converter_service/converters/v10.py:163-175 | among the definitions attached to a paragraph, a defined name appears exactly as often as the paragraph names it, and any other name not at all |
| Placeholders.AttachedAreLast | eq_cir_converter_service/converters/v10.py:165-175 | every attached definition is the last definition of one of the counted names |
| Placeholders.AttachedInTallyOrder | eq_cir_converter_service/converters/v10.py:165-175 | the attachments come name by name in tally order: none for a later entry precedes one for an earlier entry |
| Placeholders.AttachedNamedInParagraph | eq_cir_converter_service/converters/v10.py:163-175 | every definition attached to a paragraph is the last definition of a name the paragraph holds |
| Placeholders.AttachedInFirstOccurrenceOrder | eq_cir_converter_service/converters/v10.py:163-175 | the definitions attached to a paragraph follow the order in which their names first occur in it |
| Placeholders.AttachmentsEmpty | eq_cir_converter_service/converters/v10.py:172-176 | no attachments exactly when no name of the paragraph has a definition |
| Placeholders.TallyDefined | eq_cir_converter_service/converters/v10.py:165-172 | some counted name has a definition exactly when some named placeholder has one |
| Placeholders.Entry | eq_cir_converter_service/converters/v10.py:176-181 | a paragraph entry is the bare string, or a text block whose `text` is the paragraph |
| Placeholders.EntryShape | eq_cir_converter_service/converters/v10.py:162-181 | a paragraph becomes `{text, placeholders}` exactly when some name in it has a definition; its placeholders carry each defined name as often as the text names it, and no other name |
| Placeholders.EntryWithoutDefinitions | eq_cir_converter_service/utils/helper_utils.py:104-126 | with no definitions to consult, a paragraph stays a bare string |
| Placeholders.Entries | eq_cir_converter_service/converters/v10.py:161-183 | one entry per paragraph |
| Placeholders.EntriesLoopStep | eq_cir_converter_service/converters/v10.py:161-183 | one round of the paragraph loop appends the paragraph's entry, or ends with its error |
| Placeholders.EntriesPointwise | eq_cir_converter_service/converters/v10.py:161-183 | the loop succeeds exactly when every paragraph's entry does, and then yields those entries in order |
| Placeholders.EntriesAt | eq_cir_converter_service/converters/v10.py:161-183 | entry `i` of the result is paragraph `i`'s entry |
| Placeholders.EntriesOk | eq_cir_converter_service/converters/v10.py:161-183 | the loop succeeds when every paragraph's entry does |
| Placeholders.EntriesWithoutDefinitions | eq_cir_converter_service/utils/helper_utils.py:104-126 | when `placeholders` is missing or not a list, every paragraph is emitted as its bare text |
| Transform.Clean | eq_cir_converter_service/converters/v10.py:56-71 | the cleaned text of a paragraph is stripped |
| Transform.CleanAgrees | eq_cir_converter_service/utils/helper_utils.py:141-144 | the helper's extra `strip()` changes nothing: both copies clean alike |
| Transform.ProcessString | eq_cir_converter_service/converters/v10.py:186-198 | a string without a paragraph span becomes its sanitised self; otherwise it becomes a stripped string, or a list whose length is the number of paragraphs (never 1) |
| Transform.ProcessStringWrap | eq_cir_converter_service/converters/v10.py:186-198 | wrapped plain paragraphs come back: one as a string, several as a list |
| Transform.ProcessStringParagraphs | eq_cir_converter_service/converters/v10.py:186-198 | `<`-free text in paragraph spans: blank paragraphs are dropped, the others come back stripped and in order, one left over as a string and any other number as a list |
| Transform.ProcessStringPlain | eq_cir_converter_service/converters/v10.py:186-198 | text without markup is only stripped |
| Transform.PlainParagraphs | eq_cir_converter_service/converters/v10.py:56-71 | plain paragraphs hold no closing tag and are their own cleaned text |
| Transform.PlainParagraph | eq_cir_converter_service/converters/v10.py:56-71 | a plain paragraph holds no closing tag and is its own cleaned text |
| Transform.Definitions | eq_cir_converter_service/utils/helper_utils.py:106 | in the helper, a non-list `placeholders` means no definitions, never an error |
| Transform.Split | eq_cir_converter_service/converters/v10.py:94-183 | one entry per non-blank paragraph of the block's text |
| Transform.ProcessPlaceholder | eq_cir_converter_service/converters/v10.py:201-214 | a block whose text has a span becomes its paragraph entries; otherwise only `text` is replaced by its sanitised form, every other member is kept and the keys keep their order, and only a block without `text` fails |
| Transform.FirstExpandable | eq_cir_converter_service/converters/v10.py:227-230 | the first member, in insertion order, holding a string with a paragraph span |
| Transform.ExpandableMember | eq_cir_converter_service/utils/helper_utils.py:173-183 | the member used for expansion is the first expandable one; the helper instead reports none when that member's key is `""` |
| Transform.ProcessItem | eq_cir_converter_service/converters/v10.py:246-258 | the dispatch: strings go to `process_string` and text blocks to `process_placeholder`; lists stay lists; other dictionaries keep exactly their keys; scalars raise `TypeError` in `V10` and pass through in `Helper` |
| Transform.ProcessFields | eq_cir_converter_service/converters/v10.py:257 | the dictionary comprehension keeps exactly the keys, in order |
| Transform.ProcessFieldsPointwise | eq_cir_converter_service/converters/v10.py:257 | each member keeps its key and holds its processed value |
| Transform.SplitParagraphsWithPlaceholders | eq_cir_converter_service/converters/v10.py:94-183 | the method computes `Split`: text read with `str()`, paragraphs split, definitions read, loop run |
| Transform.ParagraphLoop | eq_cir_converter_service/converters/v10.py:161-183 | the paragraph loop computes the entries of the cleaned paragraphs |
| Transform.ParagraphEntry | eq_cir_converter_service/converters/v10.py:162-181 | the loop body computes the paragraph's entry |
| Transform.ProcessListLoopStep | eq_cir_converter_service/converters/v10.py:225-241 | one round of the loop appends or extends by element `i`'s contribution, or ends with its error |
| Transform.TransformList | eq_cir_converter_service/converters/v10.py:217-243 | the loop computes `process_list` |
| Transform.TransformElement | eq_cir_converter_service/converters/v10.py:226-241 | the loop body computes one element's contribution |
| Transform.ProcessListAppend | eq_cir_converter_service/converters/v10.py:217-243 | processing a concatenation processes the parts and concatenates the results |
| Transform.ExpandWrapped | eq_cir_converter_service/converters/v10.py:226-233 | a dictionary whose first member is a wrapped text expands into one `{key: p}` per paragraph, and its other members are dropped |
| Transform.ProcessList | eq_cir_converter_service/converters/v10.py:217-243 | the list succeeds exactly when every element's contribution does; with ProcessListAppend, ExpandSpan, BlankSpanDropped, DictContributesOne, NestedListSpliced and StringSpliced it fixes what each kind of element contributes |
| Transform.ExpandSpan | eq_cir_converter_service/converters/v10.py:226-233 | a dictionary whose first member is `<p>p</p>t` contributes `{key: p}` with `p` stripped (nothing when `p` is blank), then one `{key: q}` per paragraph `q` of `t`; the rest of the list follows |
| Transform.BlankSpanDropped | eq_cir_converter_service/converters/v10.py:226-233 | a dictionary whose expandable member is a lone blank span disappears from the list |
| Transform.BoldKeptInExpansion | eq_cir_converter_service/converters/v10.py:226-233 | the expansion strips but does not sanitise: `<p><b>x</b></p>` expands to `{key: "<b>x</b>"}` |
| Transform.DictContributesOne | eq_cir_converter_service/converters/v10.py:234-235 | a dictionary with nothing to expand contributes exactly itself, processed, or ends the list with its error |
| Transform.NestedListSpliced | eq_cir_converter_service/converters/v10.py:236-241 | a nested list is flattened one level: its processed elements are spliced in |
| Transform.StringSpliced | eq_cir_converter_service/converters/v10.py:236-241 | a string with paragraph spans contributes each sanitised paragraph as an element of its own; any other string contributes its sanitised self |
| Rewrite.ContextDict | eq_cir_converter_service/converters/v10.py:261-263 | `context[key]` is replaced by its processed value: a missing key raises `KeyError`, the keys are unchanged, and every other member is kept |
| Rewrite.ContextList | eq_cir_converter_service/converters/v10.py:266-275 | an index past the end raises `IndexError`; otherwise the call fails exactly when processing the element fails |
| Rewrite.ContextListSplices | eq_cir_converter_service/converters/v10.py:266-275 | elements before `index` are kept, the result takes the place of the element, and the elements after it follow in order |
| Rewrite.FieldSites | eq_cir_converter_service/services/schema/schema_processor_service.py:24-30 | rewriting the matched members of an object keeps its keys |
| Rewrite.Pass | eq_cir_converter_service/converters/v10.py:44-51 | one path's pass never turns an object into a list or the reverse; the bare root path `$` raises AttributeError, as its match has no parent |
| Rewrite.Final | eq_cir_converter_service/converters/v10.py:45-51 | rewriting the matches of the last segment keeps the container's kind |
| Rewrite.Descend | eq_cir_converter_service/converters/v10.py:45-51 | descending through a segment keeps the value's kind |
| Rewrite.PassFields | eq_cir_converter_service/converters/v10.py:45-51 | descending into every member keeps the keys |
| Rewrite.PassItems | eq_cir_converter_service/converters/v10.py:45-51 | descending into every element keeps the length |
| Rewrite.Convert | eq_cir_converter_service/converters/v10.py:43-53 | the passes of the catalogue, in order, keep the schema's kind |
| Rewrite.ConvertAppend | eq_cir_converter_service/converters/v10.py:43-53 | converting with `p + q` is converting with `p` and then with `q` |
| Rewrite.RootPathFails | eq_cir_converter_service/converters/v10.py:43-51 | a catalogue holding the bare root path fails, with AttributeError when the passes before it succeed |
| Rewrite.IndexSitesInPlace | eq_cir_converter_service/converters/v10.py:45-51 | when no matched element expands, each is replaced by its processed value where it stands, and the others are kept |
| Rewrite.IndexSites | eq_cir_converter_service/converters/v10.py:45-51 | the matches at one list, rewritten in order at their original indices: a first index past the end raises IndexError, and the elements before the first index are never touched |
| Rewrite.SpliceThenStale | eq_cir_converter_service/converters/v10.py:45-51 | after a splice the later indices are stale: the second half of an expansion is processed again, and the element that followed is left unprocessed |
| Rewrite.StaleIndex | eq_cir_converter_service/converters/v10.py:45-51 | with the converter's processing, a text of two plain paragraphs followed by another element gives the two paragraphs and leaves that element unprocessed |
| Rewrite.WrappedPair | eq_cir_converter_service/converters/v10.py:186-198 | a text of two plain paragraphs processes to the list of the two |
| Rewrite.PlainItem | eq_cir_converter_service/converters/v10.py:186-198 | a plain, stripped paragraph processes to itself |
| Rewrite.ShrinkIndexError | eq_cir_converter_service/converters/v10.py:45-51 | an empty nested list is spliced in as nothing, so the following match indexes past the end and raises `IndexError` |
| Rewrite.FieldSitesSuffix | eq_cir_converter_service/services/schema/schema_processor_service.py:24-30 | rewriting members one after another processes each where it stands |
| Rewrite.KeysSuffix | eq_cir_converter_service/services/schema/schema_processor_service.py:24-30 | every key of the members after a prefix is a key of the whole object |
| Rewrite.UniqueKeysReplace | eq_cir_converter_service/converters/v10.py:263 | replacing a member's value keeps the keys unique |
| Rewrite.ContextDictInPlace | eq_cir_converter_service/converters/v10.py:261-263 | in a dictionary with unique keys, rewriting a member replaces its value where it stands |
| Rewrite.FieldSitesAll | eq_cir_converter_service/converters/v10.py:45-51 | a final `.*` processes every member exactly as processing the object value by value would |
| Rewrite.PassField | eq_cir_converter_service/converters/v10.py:261-263 | a final `.name` on an object holding that member is one `process_context_dict`: that member is rewritten and every other member is kept |
| Converter.ConvertToV10 | eq_cir_converter_service/converters/v10.py:21-53 | the nested loop over paths and matches computes the passes of the catalogue with the converter's processing |
| Converter.ScalarMember | eq_cir_converter_service/converters/v10.py:252-258 | a path that reaches a number raises `TypeError` in the converter and leaves it unchanged in the helper |
| Converter.RootPathRaises | eq_cir_converter_service/converters/v10.py:43-51 | the catalogue entry `$` parses, and converting with it raises AttributeError in both copies |
| SchemaService.Selected | eq_cir_converter_service/services/schema/schema_processor_service.py:21-23 | at most one path per catalogue entry |
| SchemaService.TransformStep | eq_cir_converter_service/services/schema/schema_processor_service.py:21-36 | an entry that is not an object with `json_path` is skipped; any other runs its pass, and the loop continues from the result |
| SchemaService.TransformJsonSchema | eq_cir_converter_service/services/schema/schema_processor_service.py:19-37 | the loop computes the passes of the applied entries with the helper's processing |
| SchemaService.StringEntries | eq_cir_converter_service/services/schema/schema_processor_service.py:62-66 | filtering never adds entries; with StringEntriesAppend and StringEntriesKeepAll, the kept entries stay in catalogue order with their repeats |
| SchemaService.StringEntriesMembers | eq_cir_converter_service/services/schema/schema_processor_service.py:62-66 | an entry is kept exactly when it is in the catalogue and all its members are strings |
| SchemaService.StringEntriesAppend | eq_cir_converter_service/services/schema/schema_processor_service.py:62-66 | the kept entries of a joined catalogue are those of the first part, then those of the second |
| SchemaService.StringEntriesKeepAll | eq_cir_converter_service/services/schema/schema_processor_service.py:62-66 | a catalogue of string entries only is kept whole and in order |
| SchemaService.StringEntriesIdempotent | eq_cir_converter_service/services/schema/schema_processor_service.py:62-66 | filtering twice is filtering once |
| SchemaService.AdditionalContextDropped | eq_cir_converter_service/services/schema/extractable_strings.py:24-28 | an entry carrying an `additional_context` list is never applied |
| SchemaService.FilteredPathsParse | eq_cir_converter_service/services/schema/schema_processor_service.py:62-66 | the filtered entries whose `json_path` is a string hold a path in the dialect |
| SchemaService.ConvertSchema | eq_cir_converter_service/services/schema/schema_processor_service.py:41-80 | target `10.0.0` applies the string entries of the catalogue; any other target returns the schema; the current version plays no part; the schema's kind is kept |
| SchemaProcessor.ProcessSchema | eq_cir_converter_service/services/schema/schema_processor.py:14-46 | target `10.0.0`, compared as an exact string, runs `convert_to_v10`; any other target returns the schema unchanged; the current version plays no part |
| TextUtils.CleanText | eq_cir_converter_service/utils/text_utils.py:33-41 | the cleaned text is stripped |
| TextUtils.CleanTextPlain | eq_cir_converter_service/utils/text_utils.py:33-41 | text without markup is only stripped |
| Markup.EmboldenPlain | eq_cir_converter_service/utils/text_utils.py:10-20 | text without markup is left unchanged by `replace_b_with_strong` |
| Markup.EmboldenSpan | eq_cir_converter_service/utils/text_utils.py:10-20 | `<b>x</b>` (either case of the letter) becomes `<strong>x</strong>`, and the rest is processed on its own |
| Markup.EmboldenInside | eq_cir_converter_service/utils/text_utils.py:10-20 | `a<b>b</b>c` becomes `a<strong>b</strong>c` |
| Markup.EmboldenPlainPrefix | eq_cir_converter_service/utils/text_utils.py:10-20 | text without `<` in front is copied |
| TextUtils.UpperParagraphNotSplit | eq_cir_converter_service/utils/text_utils.py:23-30 | the case-sensitive `split_paragraphs` finds no paragraph in `<P>x</P>` |
| TextUtils.UpperParagraphSurvives | eq_cir_converter_service/utils/text_utils.py:37-41 | `clean_text` keeps an upper-case `<P>`, while the converter's sanitiser deletes it |
| TextUtils.CleanTextJoinsParagraphs | eq_cir_converter_service/utils/text_utils.py:33-41 | `clean_text("<p>a<b>b</b></p><br><p>c</p>")` is `a<strong>b</strong>c`, stripped |
| Validators.FirstDot | eq_cir_converter_service/services/validators/request_validator.py:20 | the first `.` found is a `.` inside the text |
| Validators.DigitChar | eq_cir_converter_service/services/validators/request_validator.py:20 | the digit of a value below 10 is a `\d` whose value is that value |
| Validators.CharDigit | eq_cir_converter_service/services/validators/request_validator.py:20 | a `\d` character has a value below 10 and is its value's digit |
| Validators.LeadingValue | eq_cir_converter_service/services/validators/request_validator.py:20 | a numeral starting with a non-zero digit denotes a positive number |
| Validators.NumeralNatString | eq_cir_converter_service/services/validators/request_validator.py:20 | the decimal numeral of `n` matches `0\|[1-9]\d*` and denotes `n` |
| Validators.NatStringNumeral | eq_cir_converter_service/services/validators/request_validator.py:20 | a numeral matching `0\|[1-9]\d*` is the decimal numeral of its value: it is canonical |
| Validators.FirstDotAfter | eq_cir_converter_service/services/validators/request_validator.py:20 | the first `.` after a dot-free prefix is right after it |
| Validators.ThreeParts | eq_cir_converter_service/services/validators/request_validator.py:20 | a text split by two dots into three dot-free parts matches exactly when each part does, and parses to the parts' values |
| Validators.CanonicalIsVersion | eq_cir_converter_service/services/validators/request_validator.py:20 | every `x.y.z` written in canonical decimal matches the strict pattern and parses back to `(x, y, z)` |
| Validators.SplitVersion | eq_cir_converter_service/services/validators/request_validator.py:20 | a text matching the strict pattern is three numerals joined by dots |
| Validators.VersionIsCanonical | eq_cir_converter_service/services/validators/request_validator.py:20 | a text matching the strict pattern parses, and is the canonical text of what it parses to |
| Validators.PartsStrictLoose | eq_cir_converter_service/services/validators/request_validator.py:20 | parts matching `0\|[1-9]\d*` also match `\d+` |
| Validators.StrictIsLoose | eq_cir_converter_service/services/validators/query_parameter_validator_service.py:23 | every strictly valid version matches the loose pattern too |
| Validators.ValidateVersions | eq_cir_converter_service/services/validators/request_validator.py:11-34 | no error exactly when both versions match; `InvalidCurrentVersion` exactly when the current one does not (it is checked first); `InvalidTargetVersion` exactly when only the target does not |
| Validators.ValidateExpectedVersions | eq_cir_converter_service/services/validators/query_parameter_validator_service.py:14-51 | no error exactly when both versions match the loose pattern and equal the expected ones; InvalidCurrentVersion exactly when the current version fails either test; InvalidTargetVersion exactly when the current version passes and the target fails either test |
| Validators.ValidateInputJson | eq_cir_converter_service/services/validators/request_validator.py:37-46 | `InvalidInputJson` exactly when the schema mapping is empty |
| Validators.CanonicalVersionsPass | eq_cir_converter_service/services/validators/request_validator.py:11-34 | any two canonical versions pass |
| Validators.LeadingZeroRefused | eq_cir_converter_service/services/validators/request_validator.py:20 | `01.0.0` is refused |
| Validators.TwoPartsRefused | eq_cir_converter_service/services/validators/request_validator.py:20 | `1.2` is refused |
| Validators.FourPartsRefused | eq_cir_converter_service/services/validators/request_validator.py:20 | `1.2.3.4` is refused |
| Validators.SuffixRefused | eq_cir_converter_service/services/validators/request_validator.py:20 | `1.2.3-rc` is refused |
| Validators.FinalNewlineAccepted | eq_cir_converter_service/services/validators/request_validator.py:20-22 | `1.2.3\n` is accepted, because `$` also matches before a final line break |
| Validators.LeadingZeroLooseOnly | eq_cir_converter_service/services/validators/query_parameter_validator_service.py:23 | `09.0.0` matches the loose pattern but not the strict one |
| Validators.DefaultCurrentIsLoose | eq_cir_converter_service/services/validators/query_parameter_validator_service.py:28 | the default expected current version `9.0.0` is well formed |
| Validators.DefaultTargetIsLoose | eq_cir_converter_service/services/validators/query_parameter_validator_service.py:42 | the default expected target version `10.0.0` is well formed |
| Validators.DefaultExpectedPair | eq_cir_converter_service/services/validators/query_parameter_validator_service.py:23-51 | with the default expected versions, the call succeeds for exactly the pair (`9.0.0`, `10.0.0`) |

## Left out

- Logging, configuration and environment reads. The expected versions of
  `QueryParameterValidatorService` (`CURRENT_VERSION`, `TARGET_VERSION`) are parameters of
  `Validators.ValidateExpectedVersions`.
- The catalogue data are parameters: `PATHS` for `schema_processor.py` and
  `EXTRACTABLE_STRINGS` for `convert_schema`. `jsonpath_ng` is not part of this model.
  Only the dialect `$`, `.name`, `.*`, `[*]` is parsed (`JsonPath.Parse`); other paths
  are outside the model.
- SchemaService.ConvertSchema: requires every filtered `json_path` to be in the dialect,
  so its contract covers catalogues written in that dialect, not the catalogue the service
  ships. In `eq_cir_converter_service/services/schema/extractable_strings.py`, 63 of the
  76 `json_path` entries use the descendant segment `$..`, for example
  `$..question.description[*]` and `$..answers[*].validation.messages.*`; only the 13
  entries such as `$.legal_basis` and `$.sections[*].repeat.title` are in the dialect.
  Filters and explicit indices are outside it as well.
- Converter.ConvertToV10: requires every path to be in the dialect. The same requirement
  is carried by `SchemaProcessor.ProcessSchema` and `SchemaService.TransformJsonSchema`.
- Rewrite.Final: a final `[*]` on a non-empty object, a non-zero number, `true` or a
  non-empty string matches that value inside a temporary list the path library builds.
  The rewrite lands in that list and is lost, so the model returns the value unchanged.
  It does not model the processing's own side effects on the value, such as a text
  block's `text` rewritten in place.
- Object identity. The model works on values, so the following are not modelled:
  - the shallow copy `dict(schema)` in `convert_schema`, and the mutation of the
    caller's nested containers through it;
  - the aliasing of the one definition object attached `count` times in `v10.py`;
  - the independence of the `deepcopy` copies in `helper_utils.py`.
- Python's Unicode classes. `\s`, `\d` and `str.strip()` are modelled on ASCII:
  - whitespace is space, `\t`, `\n`, `\v`, `\f`, `\r` and `\x1c`-`\x1f`;
  - digits are `0`-`9`.
- Transform.TextOf: `str()` of a non-string `text` is a simplified `repr`. Floats are not
  modelled: numbers are integers.
- `eq_cir_converter_service/services/validators/input_json_validator_service.py`
  repeats the emptiness check of `Validators.ValidateInputJson`.
- The HTTP routers, the application entry points and the exception responders are
  FastAPI wiring.
- Exceptions are the cases of `Json.Error` and `Validators.ValidationError`. Their
  messages and HTTP responses are not modelled.
- Placeholders.LastDefinition: when several definitions name the same placeholder, the
  LAST one is attached, not the first. This follows the code: the loop at
  `eq_cir_converter_service/converters/v10.py:168-170` overwrites earlier matches.
