# XDPToCSV in Dafny

This is a model of `XDPToCSV.py`. The script reads Adobe XFA form templates (`.xdp` files) and writes one CSV row per form field. Each row has ten columns:

- the field's name, caption text, control type, speak text and item texts;
- the enclosing subform's binding;
- the field's own binding;
- the subform's name and whether it repeats;
- the file the field came from.

The rows are sorted by field name, ignoring case.

The model starts from trees that are already parsed. Each document is a file name and an `Element(tag, attrs, text, children)` value.

- `Xml` defines the parts of ElementTree the script uses:
  - `iter()` is a pre-order traversal that includes the root;
  - `elem.get(key, default)`;
  - the paths `./tag` and `.//tag` and chains of them;
  - `findall` returns every match, in ElementTree's order, with no deduplication;
  - `find` returns the first match, or None.
- `Text` holds the string operations: `endswith`, `split(c)[0]`, `strip(c)`, `join`, ASCII `lower()`, and Python's string order.
- `Form` handles one document:
  - the template search loop with its `break`, which also takes the namespace from the template's tag;
  - the per-field lookups;
  - the control-type loop with its `break`;
  - the item-text loop;
  - the nested loops over subforms and their direct `field` children, which build the rows.
- `RowSort` is `rows.sort(key=lambda x: x['Field'].lower())`. It is an insertion sort over an array of rows, done in place. It is proved equal to a functional specification, which is shown to be sorted, a permutation, stable and idempotent.
- `Report` is the whole run: the loop over directory entries, the `.xdp` filter and the final sort.
- `Scenarios` works through a one-field form and a two-row sort.

A run over documents for which the script would raise returns an error and no rows. There are two such cases:

- No element's tag ends with `template`. `template` stays `None`, and `template.findall` fails.
- The template's tag carries no `{namespace}`. The namespace map stays `''`, and ElementTree refuses the `xfa:` prefix.

The first failing document ends the run, as the uncaught exception does.

Two details of the script decide which elements and attributes are read:

- The template test is `elem.tag.endswith('template')` (XDPToCSV.py:21). Any tag that ends in `template` matches, not only one whose local name is exactly `template`, and the first such element in `root.iter()` is taken.
- The field and group names come from the lower-case `name` attribute (XDPToCSV.py:35 and 71).

## Model

| member | source | states |
|---|---|---|
| Form.FirstTemplate | XDPToCSV.py:20-26 | the template is the first element in the traversal whose tag ends with "template"; there is none exactly when no element's tag does |
| Text.EndsWith | XDPToCSV.py:21 | `endswith` holds exactly when the suffix fits and the last characters of the string are those of the suffix, one by one; the `.xdp` filter on line 11 uses the same test |
| Form.Template | XDPToCSV.py:18-29 | MissingTemplate exactly when no element of `root.iter()` ends with "template"; NoNamespace exactly when the first such tag has no `}`; otherwise the first template and the namespace taken from its tag |
| Form.NamespaceOfQName | XDPToCSV.py:23-25 | for a namespace URI without braces, the text before the first `}` of `{uri}local`, with `{` stripped, is the URI again |
| Form.QName | XDPToCSV.py:29-74 | `xfa:local` resolves to `{ns}local`, which ends with `local`; with no namespace ElementTree reads the `{}` as nothing and the tag is `local` itself |
| Form.Namespace | XDPToCSV.py:23-25 | a namespace is taken exactly when the tag holds a `}`; it then holds no `}` and neither starts nor ends with `{` |
| Form.NamespaceBraceInUri | XDPToCSV.py:24 | for a tag `{u}v}local`, whose URI itself holds a `}`, the namespace is `u`: only the text before the first `}` is kept, as `split('}')[0]` does |
| Form.LocateTemplate | XDPToCSV.py:18-26 | the loop with `break` stops at the first element whose tag ends with "template"; the namespace is set only when that tag holds a `}` |
| Text.BeforeFirst | XDPToCSV.py:24 | `split('}')[0]` holds no `}`, is a prefix of the tag, and is followed by the first `}` when the tag has one |
| Text.BeforeFirstAt | XDPToCSV.py:24 | when the first `}` is at index n, `split('}')[0]` is the first n characters |
| Text.TrimLeft | XDPToCSV.py:24 | `lstrip('{')` removes exactly the leading run of `{` |
| Text.TrimRight | XDPToCSV.py:24 | `rstrip('{')` removes exactly the trailing run of `{` |
| Text.Strip | XDPToCSV.py:24 | `strip('{')` leaves no `{` at either end, never lengthens the text, and leaves text without `{` as it is |
| Xml.TaggedSnoc | XDPToCSV.py:29-32 | one more element extends the tag test by that element exactly when it carries the tag |
| Xml.TaggedCount | XDPToCSV.py:29-32 | the tag test keeps one element for each position of the input that holds the tag |
| Xml.Tagged | XDPToCSV.py:29-32 | the tag test keeps exactly the elements with that tag, and never more elements than it was given |
| Xml.Iter | XDPToCSV.py:20 | `root.iter()` starts with the root itself, and an element with children is followed straight away by its first child, as a pre-order traversal is |
| Xml.Apply | XDPToCSV.py:29-32 | one path step over a context keeps only elements carrying the step's tag |
| Xml.Select | XDPToCSV.py:29-32 | every element a non-empty path selects carries the tag of its last step |
| Xml.FindAll | XDPToCSV.py:29-32 | every element `findall` yields carries the tag of the path's last step |
| Xml.Find | XDPToCSV.py:38-74 | what `find` returns is one of the elements `findall` yields, and it carries the tag of the path's last step |
| Xml.OneStep | XDPToCSV.py:29-32 | a one-step `findall` (`./x` or `.//x`) is the elements among the children, or the strict descendants, whose tag is `x` |
| Xml.FindSome | XDPToCSV.py:46 | `find` with a path succeeds exactly when a chain of elements takes every step of the path |
| Xml.FindOneStep | XDPToCSV.py:38-43 | a one-step `find` is None exactly when no candidate carries the tag; otherwise it is the first candidate in document order that does |
| Xml.SelectNonEmpty | XDPToCSV.py:46 | a path selects something from a context exactly when some element of the context starts a chain that takes every step |
| Form.Subforms | XDPToCSV.py:29 | `template.findall('.//xfa:subform')` yields exactly the strict descendants of the template tagged `xfa:subform` |
| Form.Fields | XDPToCSV.py:32 | `subform.findall('./xfa:field')` yields exactly the direct children tagged `xfa:field`, and no more than there are children |
| Form.Binding | XDPToCSV.py:38-43 | a binding other than '' needs a direct `bind` child |
| Form.BindingFirstChild | XDPToCSV.py:37-43 | a missing direct `bind` child gives ''; otherwise the binding is the `ref` of the first direct `bind` child |
| Form.Label | XDPToCSV.py:46-47 | a caption other than '' needs a chain `caption`, `value`, `text` below the field; when such a chain exists, the caption is the text ('' for None) of a `text` element that `findall` yields for the path |
| Form.Speak | XDPToCSV.py:57-58 | a speak text other than '' needs a chain `assist`, `speak` below the field; when such a chain exists, the speak text is the text ('' for None) of a `speak` element that `findall` yields for the path |
| Form.TypeOf | XDPToCSV.py:50-54 | the type is '' or one of the seven listed control types |
| Form.TypePriority | XDPToCSV.py:50-54 | the type is '' exactly when none of the seven control tags occurs below the field; otherwise it is the listed tag that occurs, and no earlier-listed tag occurs |
| Form.DetectType | XDPToCSV.py:50-54 | the loop with `break` yields the type that TypePriority characterises |
| Form.ItemTexts | XDPToCSV.py:61-66 | item texts exist only when the field has an `items` descendant |
| Form.PresentTexts | XDPToCSV.py:64-66 | the appended texts are never more than the elements found; PresentTextsMember gives which they are |
| Form.PresentTextsMember | XDPToCSV.py:64-66 | a string is appended exactly when some `text` element found has it as its non-None text |
| Form.PresentTextsEmpty | XDPToCSV.py:64-66 | nothing is appended exactly when every found `text` element has no text |
| Form.TaggedNoText | XDPToCSV.py:64-66 | no `text` element found has text exactly when no element with that tag below the `items` has text |
| Form.ItemTextsEmpty | XDPToCSV.py:61-66 | no `items` below the field gives no item texts; with one, the texts are empty exactly when every `text` below the first `items` has no text |
| Form.CollectItemTexts | XDPToCSV.py:61-66 | the append loop collects, in document order, the non-None texts of the `text` descendants of the first `items` |
| Text.JoinEmpty | XDPToCSV.py:82 | with a non-empty separator such as the one Items uses, the join is '' exactly when there are no texts or only one empty text |
| Text.JoinSnoc | XDPToCSV.py:82 | one more text adds the separator and that text to the join |
| Text.Join | XDPToCSV.py:82 | a join of at least one string starts with the first string and ends with the last |
| Form.Repeater | XDPToCSV.py:73-74 | the intended flag is 'yes' or 'no' |
| Form.RepeaterAsWritten | XDPToCSV.py:74 | the flag as written is 'yes' or 'no' |
| Form.RepeaterIff | XDPToCSV.py:73-74 | the intended flag is always 'yes' or 'no', and 'yes' exactly when the subform has a direct `occur` child |
| Form.RepeaterAsWrittenNeedsDotChild | XDPToCSV.py:74 | the path as written answers 'yes' only when the subform has a child tagged `xfa:.` |
| Form.RepeaterAsWrittenMissesOccur | XDPToCSV.py:74 | a subform with a direct `occur` child and no `xfa:.` child repeats, but the path as written answers 'no' |
| Form.RepeaterAsWrittenCounterexample | XDPToCSV.py:74 | a subform whose only child is an `occur` element, in any namespace, shows the discrepancy |
| Form.FieldRow | XDPToCSV.py:77-88 | the row appended for a field has the file name under Forms, '' or a listed control type under Type, and 'yes' or 'no' under Is Repeater |
| Form.FieldRowColumns | XDPToCSV.py:35-88 | each missing piece gives '' in its own column only; Forms is the file name; the name columns are the `name` attributes; the type is '' exactly when no listed control type occurs below the field, and otherwise the first listed one that occurs; Is Repeater is 'yes' exactly when the subform has a direct `occur` child |
| Form.ExtractField | XDPToCSV.py:35-88 | the loop body for one field builds the row FieldRow describes |
| Form.Record | XDPToCSV.py:77-96 | the dictionary appended for a row pairs each of the ten header names with its value: its keys are exactly the header names, and under the i-th header name it holds the row's i-th column |
| Form.GroupRows | XDPToCSV.py:32-88 | a subform yields exactly as many rows as the fields it is given |
| Form.GroupRowsAt | XDPToCSV.py:32-88 | the i-th row of a subform is the row of its i-th direct `field` child |
| Form.GroupRowsShared | XDPToCSV.py:71-88 | every row of one subform carries that subform's name, binding and repeater flag, and the file name, so Is Repeater is the same for all of them |
| Form.GroupRowsMember | XDPToCSV.py:32-88 | the rows of a subform are exactly the rows of its fields |
| Form.GroupRowOrigin | XDPToCSV.py:32-88 | a row of a subform is the row of one of its direct `field` children |
| Form.RowCount | XDPToCSV.py:29-32 | a document yields as many rows as there are pairs of a subform and a position among its children that holds a `field` element |
| Form.RowOrigin | XDPToCSV.py:29-88 | every row is the row of some subform and one of its direct `field` children |
| Form.RowForEveryField | XDPToCSV.py:29-88 | every subform and each of its direct `field` children has its row |
| Form.AllRows | XDPToCSV.py:29-88 | every row of a document names that document under Forms |
| Form.DocumentRows | XDPToCSV.py:18-88 | a document fails exactly when its template search fails, with the same error; otherwise every row names the document |
| Form.ExtractGroup | XDPToCSV.py:32-88 | the inner loop appends the rows of the subform's direct `field` children, in order |
| Form.ExtractFields | XDPToCSV.py:32-88 | the inner loop's body, run for each field in turn, appends one row per field, in order |
| Form.ExtractGroups | XDPToCSV.py:29-88 | the outer loop appends the rows of every subform, one subform after another |
| Form.ExtractDocument | XDPToCSV.py:18-88 | one document: its error, or its rows as DocumentRows gives them |
| Text.Lower | XDPToCSV.py:91 | lower-casing keeps the length and maps each character on its own, A-Z to a-z |
| Text.LexLe | XDPToCSV.py:91 | a string is at most every string it is a prefix of |
| Text.LexLeFirstDifference | XDPToCSV.py:91 | `a <= b` exactly when `a` is a prefix of `b` or, at the first position where they differ, `a` holds the smaller code point |
| Text.LexLeReflexive | XDPToCSV.py:91 | string order is reflexive |
| Text.LexLeAntisymmetric | XDPToCSV.py:91 | string order is antisymmetric |
| Text.LexLeTransitive | XDPToCSV.py:91 | string order is transitive |
| Text.LexLeTotal | XDPToCSV.py:91 | any two strings are ordered one way or the other |
| RowSort.Key | XDPToCSV.py:91 | the key `x['Field'].lower()` has the field's length and lower-cases it character by character |
| RowSort.Insert | XDPToCSV.py:91 | inserting a row gives one row more, the inserted one among them |
| RowSort.SortSpec | XDPToCSV.py:91 | the sorted rows are as many as the input rows |
| RowSort.InsertMultiset | XDPToCSV.py:91 | inserting a row adds exactly that row |
| RowSort.InsertSorted | XDPToCSV.py:91 | inserting into sorted rows keeps them sorted |
| RowSort.InsertWithKey | XDPToCSV.py:91 | an inserted row goes after every row with the same key |
| RowSort.WithKeyAppend | XDPToCSV.py:91 | the rows with a given key in a concatenation are those of each part, in order |
| RowSort.SortSpecSorted | XDPToCSV.py:91 | the sorted rows are non-decreasing by lower-cased field name |
| RowSort.SortSpecPermutation | XDPToCSV.py:91 | the sorted rows are a permutation of the input |
| RowSort.SortSpecStable | XDPToCSV.py:91 | rows with equal lower-cased names keep their relative order |
| RowSort.SortSpecOfSorted | XDPToCSV.py:91 | sorting rows already in order changes nothing |
| RowSort.SortSpecIdempotent | XDPToCSV.py:91 | sorting twice gives what sorting once gives |
| RowSort.InsertStep | XDPToCSV.py:91 | shifting past a larger key leaves the insertion result unchanged |
| RowSort.ShiftKeeps | XDPToCSV.py:91 | moving the row before the gap up one place keeps the array equal to the sorted prefix with the gap one place lower |
| RowSort.PlaceCompletes | XDPToCSV.py:91 | writing the row into the gap completes the insertion and leaves the rest of the array alone |
| RowSort.InsertAt | XDPToCSV.py:91 | one in-place insertion step: the first i+1 cells become the insertion of cell i into the first i, and nothing after them changes |
| RowSort.SortRows | XDPToCSV.py:91 | the in-place sort leaves the array equal to the stable sort of its old contents |
| Report.XdpOnly | XDPToCSV.py:9-11 | only the entries whose name ends with ".xdp" are kept |
| Report.Collect | XDPToCSV.py:9-88 | only an .xdp entry can stop the run, and every collected row names an .xdp entry |
| Report.CollectStep | XDPToCSV.py:11-88 | one more entry only adds rows after those collected so far, and a new failure is that .xdp entry's own |
| Report.CollectLast | XDPToCSV.py:9-88 | a successful run's rows are those of the earlier entries followed by the last entry's rows when it is an .xdp file |
| Report.CollectComplete | XDPToCSV.py:9-88 | when the run succeeds, every row of every .xdp document is among its rows |
| Report.CollectCount | XDPToCSV.py:9-88 | a successful run holds exactly as many rows as its .xdp documents yield together |
| Report.CollectIgnoresOthers | XDPToCSV.py:9-11 | entries whose name does not end with ".xdp" change nothing |
| Report.CollectFailureSticks | XDPToCSV.py:9-29 | once a document fails, the run fails with that document's error |
| Report.CollectFailure | XDPToCSV.py:9-29 | the run fails exactly when some .xdp document fails; it then names the first failing document and its error |
| Report.CollectForms | XDPToCSV.py:9-88 | every row is a row of some .xdp entry whose document succeeds, and its Forms is that entry's name |
| Report.ReportIsStableSort | XDPToCSV.py:91 | the report holds the collected rows permuted, sorted by lower-cased name, with rows of equal key in collection order |
| Report.ReportRows | XDPToCSV.py:9-91 | the report fails exactly when the collection does, with the same error from an .xdp entry; otherwise it holds as many rows as were collected, each naming an .xdp entry |
| Report.Run | XDPToCSV.py:9-91 | the script's loops and the in-place sort give the rows ReportRows describes, or the first failure |
| Scenarios.ScenarioTemplate | XDPToCSV.py:18-26 | the one-field form's template is found, with namespace "x" |
| Scenarios.ScenarioSubforms | XDPToCSV.py:29 | the one-field form has one subform |
| Scenarios.ScenarioFields | XDPToCSV.py:32 | the subform has one direct field |
| Scenarios.ScenarioLabel | XDPToCSV.py:46-47 | the caption path yields "First Name" |
| Scenarios.ScenarioSpeak | XDPToCSV.py:57-58 | with no `assist`, the speak text is '' |
| Scenarios.ScenarioType | XDPToCSV.py:50-54 | the field's type is "textEdit" |
| Scenarios.ScenarioItems | XDPToCSV.py:61-82 | with no `items`, the Items column is '' |
| Scenarios.ScenarioGroup | XDPToCSV.py:37-74 | the subform is bound to "data.personal", the field to nothing, and the subform does not repeat |
| Scenarios.ScenarioRows | XDPToCSV.py:18-88 | the one-field form yields exactly its one row, column by column |
| Scenarios.ScenarioCaseInsensitiveOrder | XDPToCSV.py:91 | "alpha" sorts before "Beta", although 'B' comes before 'a' in code-point order |

## Left out

- Directory listing: the entries are a parameter, a sequence of file names with their parsed trees, in the order `os.listdir` would give them.
- XML parsing: `ET.parse` and `getroot` are not modelled. The tree datatype stands in for their output, and parse errors are not modelled.
- CSV writing: `csv.DictWriter`, its quoting and the file it writes are not modelled. The model stops at the sorted rows. `Form.Record` states which value the dictionary holds under each header name, which fixes what each CSV line holds before quoting.
- Console output: the `print` calls are not modelled.
- Text.Lower: lower-cases ASCII letters only. Python's `str.lower()` also maps non-ASCII letters, and some of them change length. Unicode case tables are not modelled.
- Missing text: an element found without text contributes '', which is what the CSV writer prints for `None`. A Python `None` inside the row dictionary is not modelled.
- Namespaces: a URI holding `}` is handled as the script handles it, by taking the text before the first `}` (Form.NamespaceBraceInUri). Only the round trip of Form.NamespaceOfQName needs a URI without braces.
- Namespace wildcard: when the template's namespace URI is exactly `*`, Python 3.8 and later read `xfa:subform` as `{*}subform`, which matches `subform` in any namespace or in none. Xml.Tagged compares tags exactly, so for such a document the model finds only elements whose tag is literally `{*}subform`, `{*}field` and so on. ElementTree's wildcard matching is not modelled.
- ElementTree exceptions: the exception raised for an unbound `xfa:` prefix is modelled only as the NoNamespace error, and the AttributeError on a missing template only as MissingTemplate. Their messages and tracebacks are not modelled.
- Form.Repeater: the rest of the model uses the intended meaning of the repeater check, a direct `occur` child. The path as the script writes it is modelled separately as Form.RepeaterAsWritten; see Findings.

## Findings

| source | as written | input that shows it | evidently intended | confidence | as-written member | corrected member |
|---|---|---|---|---|---|---|
| XDPToCSV.py:74 | `subform.find('xfa:./occur', namespace)`. ElementTree reads the path as a child tagged `{ns}.` followed by an unqualified `occur` child of that child, so it never matches a real form | a subform whose only child is `{ns}occur`: the script writes 'no' | 'yes' exactly when the subform has a direct `occur` child, as the comment on line 73 says | not executed | Form.RepeaterAsWritten (with Form.RepeaterAsWrittenMissesOccur, Form.RepeaterAsWrittenCounterexample) | Form.Repeater (with Form.RepeaterIff) |
