# Script-record extraction, modelled in Dafny

The technical-document generator takes uploaded XML exports of automation
scripts. Its one piece of repository logic is `parse_xml`. That function
walks the parsed element tree and turns every `script` element beneath the
root, at any depth and in document order, into a flat record of five
labelled fields:

| label | child tag |
|---|---|
| `Name` | `name` |
| `Description` | `description` |
| `Type of Script` | `type` |
| `Sys_id` | `sys_id` |
| `Other Details` | `other_details` |

Each field takes the text of the first direct child with that tag. When
there is no such child, the field is the literal `"N/A"`. The caller then
has two branches. A non-empty record list goes on to document generation.
An empty list is reported as "no valid data".

The model has three files:

- `wrappers.dfy`: `Option`. `None` stands for Python's `None`.
- `element_tree.dfy`: module `ElementTree`. It holds the element datatype
  (tag, optional text, children) and the ElementTree searches involved:
  `find`, `findall`, and the pre-order `iter()` that `findall` is built on.
  Tags are compared literally, as for plain tag names:
  - `find(tag)` is `Find`: the first direct child with the tag.
  - `iter()` is `Iter`: pre-order traversal.
  - `findall('.//tag')` is `FindAllBeneath`: pre-order traversal
    restricted to the tag, leaving out the root itself.

  It also holds the lemmas about these searches: count, document order,
  nesting and the empty case.
- `extractor.dfy`: module `Extractor`. It holds:
  - the per-field choice, `FieldValue`;
  - the record, `ScriptRecord`, a map from label to optional text;
  - the extraction loop, `ParseXml`, a method that appends one record per
    match;
  - the caller's branch, `ProcessFile`;
  - the lemma that only direct children are read.

A child that is present but has no text gives `None`, not `"N/A"`
(main.py:29-33), so a field value is an `Option<string>`.

## Model

| member | source | states |
|---|---|---|
| `ElementTree.FindIn` | main.py:29-33 | the first element of a sequence with the tag: none exactly when no element has it, otherwise one with the tag and no earlier match |
| `ElementTree.Find` | main.py:29-33 | `script.find(tag)` is absent exactly when no direct child has the tag; otherwise it is the first direct child with the tag |
| `ElementTree.FindAllCount` | main.py:27 | `findall('.//script')` returns as many elements as there are `script` elements strictly beneath the root, at any depth (counted by an independent recursion over the tree) |
| `ElementTree.FindAllFirstChild` | main.py:27 | document order: matches under the first child come first (the child itself, then what is nested in it), and matches under the later children follow |
| `ElementTree.NestedFound` | main.py:27 | a `script` nested beneath another found `script` is also found (`FindAllCount` counts each one separately) |
| `ElementTree.FindAllEmpty` | main.py:26-27 | `findall` returns nothing exactly when no element strictly beneath the root has the tag |
| `ElementTree.WithTagAppend` | main.py:27 | filtering by tag distributes over concatenation, so the relative order of the traversal is kept |
| `ElementTree.IterTransitive` | main.py:27 | everything beneath an element that is beneath the root is itself beneath the root |
| `Extractor.FieldValue` | main.py:29-33 | a field is `"N/A"` when no direct child has its tag; otherwise it is the verbatim text of the first such child, `None` included |
| `Extractor.PlaceholderMeansMissing` | main.py:29-33 | a field is `"N/A"` only when its child is missing or that child's text is literally `"N/A"`; it is `None` exactly when the child exists without text |
| `Extractor.ScriptRecord` | main.py:28-34 | a record has exactly the five keys `Name`, `Description`, `Type of Script`, `Sys_id`, `Other Details` and no others |
| `Extractor.RecordField` | main.py:29-33 | for each label/child-tag pair (`Name`/`name`, `Description`/`description`, `Type of Script`/`type`, `Sys_id`/`sys_id`, `Other Details`/`other_details`) the record's field is `"N/A"` when the script has no direct child with that tag, and otherwise the first such child's text verbatim |
| `Extractor.RecordReadsDirectChildrenOnly` | main.py:29-33 | two scripts whose direct children agree in tag and text give the same record, whatever their grandchildren or nested scripts hold |
| `Extractor.ParseXml` | main.py:21-36 | one record per `script` strictly beneath the root (the independent count); record i is the record of the i-th match in document order and depends on that element alone; the list is empty exactly when no `script` lies beneath the root |
| `Extractor.ProcessFile` | main.py:104-111 | document generation gets the records exactly when at least one `script` lies beneath the root; otherwise the file is reported as having no valid data |

## Left out

- Parsing bytes into a tree (`ET.parse`, main.py:23) and its failures on malformed XML. Parsing is library code, so the tree is the model's input.
- Element attributes and tail text. Extraction never reads them.
- Python object identity. `findall` leaves out the root by identity. The model leaves out position 0 of the pre-order traversal instead, which is the root.
- Dict key order. A Python dict keeps insertion order, but a Dafny `map` has no order. The order exists only in the `Fields` table, and only the `str(item)` flattening in document generation would observe it.
- `generate_document` (main.py:38-74). It calls an external embedding model, a vector index and a language model, with non-deterministic output. `ProcessFile` stops at the decision to call it.
- `display_document` (main.py:76-87). It is UI rendering plus base64 encoding done by a library.
- Session state, the UUID and the unused cache (main.py:14-19). These are ambient UI state.
- The upload loop, temporary files and the batch-wide exception handler (main.py:89-115). These are I/O and UI orchestration.
