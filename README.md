# Skill tree generator — a verified model of its core

The generator reads a résumé PDF, classifies the skills in it (through a
remote language model, or by keyword matching when no API key is set or the
remote call fails), turns the resulting skill record into a named tree rooted
at "Skills", and injects that tree into an HTML page. This project models the
deterministic logic of that pipeline in Dafny and proves what it promises:

- **Text extraction** (`Extraction`): each PDF backend is what it yields, a
  sequence of optional page texts, possibly followed by a raised error. Page
  texts are accumulated with a newline each, empty pages skipped. The
  secondary backend is tried only when the primary gathered nothing. The
  result is the trimmed text, an ImportError, or the "could not extract"
  error.
- **Keyword fallback** (`KeywordFallback`): the fixed three-category table is
  scanned by case-insensitive substring containment, as nested loops that
  append. The loops take the table as a parameter (`ScanTable`), and the
  fallback passes the source's literal table to them. This reproduces the
  source's quirks: "R" matches any "r", "Go" matches "good", and "Java"
  matches inside "JavaScript".
- **Reply handling** (`ResponseParsing`): the markdown code-fence filter
  applied to the model's reply, and the choice between the remote record and
  the fallback record.
- **Tree building** (`TreeBuilder`): `build_skill_tree` as a loop that
  appends, proved equal to a functional specification. That specification
  is then characterised by lemmas on order, presence, leaves and labels.
- **HTML injection** (`HtmlRender`): `str.replace` of the `SKILL_TREE_DATA`
  placeholder.
- **Run** (`Pipeline`): extraction, classification and building composed.

`PyStr` models the Python string operations the source relies on
(`strip`, `lower`, `title`, `split`, `join`, `in`, `replace`). `SkillModel`
holds the record and tree datatypes. `Sequences` and `Wrappers` are small
helpers.

The tree type has two constructors, `Leaf(name, kind)` and
`Inner(name, children)`. These are exactly the two dictionary shapes the
builder creates: `{"name", "type"}` for a leaf, which has no `children` key,
and `{"name", "children"}` for an inner node.

Extraction fails only when nothing was gathered. The code tests for
emptiness before it trims (skill_tree_generator.py:58-61), so pages that
hold only white space give a successful, empty result.
`Extraction.WhitespacePagesGiveEmptyText` exhibits this.

## Model

| member | source | states |
|---|---|---|
| `PyStr.StripSpec` | skill_tree_generator.py:61 | `strip()` returns a contiguous slice of its input. Only white space is removed before and after that slice, and the slice neither starts nor ends with white space. |
| `PyStr.Split` | skill_tree_generator.py:136 | `split('\n')` yields at least one part, and no part contains the separator. |
| `PyStr.JoinSplit` | skill_tree_generator.py:136-137 | Joining the parts of a split with the same separator gives back the original text. |
| `PyStr.SplitJoin` | skill_tree_generator.py:136-137 | Splitting a join gives back the parts, when the list is non-empty and no part contains the separator. |
| `PyStr.TitleAroundSpace` | skill_tree_generator.py:198 | `title()` treats the two sides of a space independently: `Title(x + " " + y) == Title(x) + " " + Title(y)`, so each word of a label is capitalised on its own. |
| `PyStr.ContainsPrefix` | skill_tree_generator.py:165 | Wherever a string occurs as a substring, every prefix of it occurs too. |
| `PyStr.ReplaceAbsent` | skill_tree_generator.py:554 | `replace` leaves a text without the pattern unchanged. |
| `PyStr.ReplaceSingle` | skill_tree_generator.py:554 | When the pattern occurs only right after `prefix`, `replace` gives `prefix + replacement + suffix`, whatever the replacement contains. |
| `Extraction.AccumulatePages` | skill_tree_generator.py:39-42 | The page loop's result is the starting text followed by `page_text + "\n"` for each page with non-empty text, in page order. |
| `Extraction.ExtractTextFromPdf` | skill_tree_generator.py:28-61 | The method's outcome equals `ExtractSpec`. That is: an ImportError when neither backend is available, otherwise the trimmed text of the primary backend or, when the primary gathered nothing, of the secondary backend, or an error when neither gathered anything. |
| `Extraction.GatheredEmpty` | skill_tree_generator.py:39-42 | A backend gathers nothing exactly when every page is `None` or empty. Text that was gathered ends in a newline. |
| `Extraction.GatheredAppend` | skill_tree_generator.py:39-42 | The text gathered from two consecutive runs of pages is the concatenation of the text gathered from each run. |
| `Extraction.GatheredSplitsAtPage` | skill_tree_generator.py:39-42 | Every page contributes its text and a newline at its own position in the gathered text. |
| `Extraction.ExtractOutcome` | skill_tree_generator.py:30-61 | The result is ImportError exactly when both backends are unavailable. It is the extraction error exactly when no available backend has a page with text. Primary text, when there is any, wins. When the primary gathered nothing, because it is unavailable or its pages hold no text, the secondary's text is used. |
| `Extraction.RaiseKeepsGatheredText` | skill_tree_generator.py:36-56 | A backend that raises after some pages keeps the text it gathered, so the outcome is the same as if it had not raised. |
| `Extraction.WhitespacePagesGiveEmptyText` | skill_tree_generator.py:58-61 | A single page holding only a space yields `Ok("")`, because emptiness is tested before trimming. |
| `KeywordFallback.ScanTable` | skill_tree_generator.py:160-166 | The two nested loops start with one empty list per category, in table order. They append each keyword whose lower-case form is a substring of the lower-cased text. The result is exactly `TableFound`: each category key with its matching keywords. |
| `KeywordFallback.FallbackSkillExtraction` | skill_tree_generator.py:151-177 | The method returns exactly `FallbackRecord` of the résumé text: the fixed table scanned against the lower-cased text, with every non-technical field empty. |
| `KeywordFallback.FoundSpec` | skill_tree_generator.py:163-166 | For one category, the found list is a subsequence of the keywords in table order. It holds a keyword exactly when the keyword's lower-case form is a substring of the lower-cased text, and it has no duplicates when the table has none. |
| `KeywordFallback.TechKeywordsDistinct` | skill_tree_generator.py:154-158 | No category of the keyword table lists the same keyword twice. |
| `KeywordFallback.FallbackMatching` | skill_tree_generator.py:154-177 | The technical map has exactly the keys `programming_languages`, `frameworks` and `tools`, in that order. Each list holds exactly the matching table keywords, once each, in table order. Soft skills, domains, certifications, experience levels and relationships are all empty. |
| `KeywordFallback.JavaScriptImpliesJava` | skill_tree_generator.py:155-165 | Whenever "JavaScript" is found, "Java" is found as well. |
| `KeywordFallback.LetterR` | skill_tree_generator.py:155-165 | "R" is found exactly when the text contains an `r` or an `R`. |
| `KeywordFallback.GoodMatchesGo` | skill_tree_generator.py:155-165 | "Go" is found in any text that contains "good", in any case. |
| `ResponseParsing.KeptLinesSpec` | skill_tree_generator.py:137 | The kept lines are a subsequence of the input lines. A line is kept exactly when its trimmed form does not start with three backticks. Every occurrence of a non-fence line is kept, so each line occurs in the result as often as in the input, or not at all when it is a fence line. |
| `ResponseParsing.StripFencesSpec` | skill_tree_generator.py:133-137 | A reply that does not start with a fence is only trimmed. A fenced reply becomes its non-fence lines joined by newlines: splitting the result gives back exactly those lines, or the result is empty when none is left. No line of the result is a fence line. |
| `ResponseParsing.ClassifyOutcome` | skill_tree_generator.py:123-149 | The remote record is used exactly when an API key is set, the call succeeded with a JSON body, and the stripped content parsed; it is then that parsed record. In every other case the record is the keyword fallback's, including a body that is not JSON, where this states the intended behaviour (see "## Findings"). |
| `TreeBuilder.BuildSkillTree` | skill_tree_generator.py:179-230 | The appending loop builds exactly `SkillTree(data)`. |
| `TreeBuilder.NonEmptyIndicesSpec` | skill_tree_generator.py:195-196 | The indices of the non-empty categories are strictly increasing and in range. An index is listed exactly when its category is non-empty. |
| `TreeBuilder.CategoryNodesSelect` | skill_tree_generator.py:195-201 | The k-th child of "Technical Skills" is the node of the k-th non-empty category, in the record's key order. There is one child per non-empty category and none for an empty one. |
| `TreeBuilder.CategoryNodesEmpty` | skill_tree_generator.py:195-204 | The technical node has no children exactly when every category is empty. |
| `TreeBuilder.BranchOrder` | skill_tree_generator.py:182-230 | The root is an inner node named "Skills". Its branches appear in the fixed order Technical Skills, Soft Skills, Domain Expertise, Certifications, and no branch appears twice. |
| `TreeBuilder.BranchPresence` | skill_tree_generator.py:188-228 | Each top-level branch is present exactly when its part of the record is non-empty. For Technical Skills, that means some category is non-empty. |
| `TreeBuilder.BranchContents` | skill_tree_generator.py:188-228 | Technical Skills holds the category nodes. Each other branch holds one leaf per source string, in order and without de-duplication. Leaves are typed "skill", and "certification" under Certifications. |
| `TreeBuilder.EmptyTree` | skill_tree_generator.py:182-230 | The root's children list is empty exactly when every list of the record is empty. In particular it is empty when the record has no `skills` key. |
| `TreeBuilder.SkillTreeShape` | skill_tree_generator.py:190-228 | No branch or category node is empty. Every leaf is typed "skill", except the leaves under Certifications, which are typed "certification". |
| `TreeBuilder.CategoryLabelAt` | skill_tree_generator.py:198 | Each character of a category label comes from the key: `_` becomes a space; a letter is upper-cased when it is first or follows a non-letter, and lower-cased otherwise. |
| `TreeBuilder.TwoWordLabel` | skill_tree_generator.py:198 | A key made of two lower-case words joined by `_` is labelled as the two words, each with its first letter upper-cased, separated by one space. |
| `TreeBuilder.CloudPlatformsLabel` | skill_tree_generator.py:198 | The key "cloud_platforms" is labelled "Cloud Platforms". |
| `TreeBuilder.ProgrammingLanguagesLabel` | skill_tree_generator.py:198 | The key "programming_languages" is labelled "Programming Languages". |
| `TreeBuilder.SingleLanguageTree` | skill_tree_generator.py:179-230 | A record holding only `programming_languages: ["Python"]` yields Skills → Technical Skills → Programming Languages → the leaf "Python" typed "skill", and nothing else. |
| `HtmlRender.RenderEmbedsTree` | skill_tree_generator.py:377 | When the template holds the marker exactly once, the page is the template with the serialized tree in the marker's place. The rest of the template is unchanged, and the inserted text is not rescanned. |
| `HtmlRender.RenderWithoutMarker` | skill_tree_generator.py:553-554 | A template without the marker passes through unchanged. |
| `ResponseParsing.NonJsonBodyRaises` | skill_tree_generator.py:123-144 | On a successful reply whose body is not JSON, the code as written ends with an error, because the handler at line 144 reads `content` before line 129 assigned it. The intended behaviour is the keyword fallback record. |
| `ResponseParsing.AsWrittenAgreesElsewhere` | skill_tree_generator.py:123-149 | The code as written raises exactly on a body that is not JSON. On every other reply it gives the same classification as the intended behaviour. |
| `Pipeline.RunWithoutKey` | skill_tree_generator.py:232-246 | An extraction error ends the run with that error. Without an API key, the tree is built from the fallback record, so it has no Soft Skills, Domain Expertise or Certifications branch. |

## Left out

- The HTTP request is not modelled: headers, payload, the 60-second timeout and `raise_for_status` (skill_tree_generator.py:102-126). It is network I/O, so the service is a parameter `remote: string -> Reply`, and the replies are of three kinds. `CallFailed` stands for every failure that ends in the general handler at lines 147-149: a transport error, an error status, an empty `choices` list, or a `content` that is null or not a string, on which `strip()` raises. `BodyNotJson` is a successful status whose body is not JSON (see "## Findings"). `Replied(None)` is a first choice whose message has no `content` key, which defaults to "{}".
- ResponseParsing.ClassifyOutcome: states the intended fallback for a successful reply whose body is not JSON. The source as written raises `UnboundLocalError` on that reply (line 144), and the run ends without writing files. `AnalyzeResumeAsWritten` models that path, and "## Findings" records it.
- Prompt construction (lines 66-100) is not modelled. It is a static string with no logic.
- `json.loads` and `json.dumps` (lines 139, 250, 553) are library serialisation. Parsing is a parameter `parse: string -> Option<SkillData>`, and the serialized tree is an opaque string.
- A reply whose JSON does not have the record's shape is not modelled. In the source, a top level that is not an object raises, as does a `skills` or `technical` value without `.get` or `.items`. A string where a list is expected gives one leaf per character, and non-string list elements become leaves as they are. The model's record holds only lists of strings.
- The pdfplumber and PyPDF2 internals and `open()` (lines 12-20, 38-54) are foreign libraries and file I/O. Each backend is reduced to its page texts and whether it raised.
- File writes and console output are not modelled (lines 44, 56, 143-148, 234-257, 556-557), nor `main` with its file-existence check (lines 560-580). These are I/O and command-line plumbing.
- The HTML, CSS and D3 script of the template (lines 262-550) are not modelled. They are a static asset. The template is modelled as `prefix + "SKILL_TREE_DATA" + suffix`.
- `temperature: 0.3` is not modelled: it is a floating-point parameter sent to the remote service.
- Case mapping covers ASCII only. `lower()` and `title()` on other letters, including case mappings that change a string's length, are not modelled. White space for `strip()` follows Python's `isspace()` in full.
- The source's `technical` dictionary has unique keys. The model uses a sequence of (key, list) pairs, which keeps key order, and its results do not depend on the keys being unique.
- `experience_levels` and `skill_relationships` are carried in the record but, as in the source, never rendered into the tree.

## Findings

| source | as written | input that shows it | evidently intended | confidence | as-written member | corrected member |
|---|---|---|---|---|---|---|
| skill_tree_generator.py:126-144 | `response.json()` raises a JSON decode error before `content` is first assigned at line 129. The handler for that error prints `content[:500]`, which raises `UnboundLocalError`, and the handler at line 147 does not catch it. | An API key is set and the service answers with status 200 and an HTML page or an empty body. | The keyword fallback record, as for every other unusable reply (lines 145-149). | not executed | `ResponseParsing.NonJsonBodyRaises` | `ResponseParsing.ClassifyOutcome` |
