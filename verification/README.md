# Course-catalogue scrapers: a Dafny model of the data-shaping core

Four near-duplicate Node scripts read a university's study-plan pages, one
script per university:

- `hebron_uni.js` for Hebron University;
- `polytechnic.js` for Palestine Polytechnic;
- `khadory.js` for Palestine Technical University – Kadoorie;
- `nnu_grad.js` for An-Najah graduate studies.

Each script turns every course row into a course object with a canonical
`snake_case` name. `polytechnic.js` and `khadory.js` also write a bilingual
localisation file pairing the Arabic and English names under those canonical
keys. They then add the program and its courses to a Firestore `files`
collection. A course number already present there gets the new program
appended to its `parents`, so it is not written twice.

The other two differ. `hebron_uni.js` builds two-translation course records
from `<strong>` fragments into `data.json`, and its call to `addMajor` is
commented out. `nnu_grad.js` aligns two name files line by line into the
localisation objects. Its `addMajor` stores course numbers under another
field than the one it looks them up by, and its update branch throws (see
"## Findings").

This project models the pure logic between the page and the database, and
proves what it guarantees:

- **`snakeCase`** (`Naming`): trim, collapse every run of non-word characters
  to `_`, lower-case.
- **Hebron's `<strong>` fragments** (`Fragments`): the first standalone
  five-digit number is split off as the id. `processArray` then folds a blank
  entry into the one after it.
- **Hebron's record builder** (`Hebron`): Arabic and English entries are
  joined on the id into two-translation course records. Records without a
  usable id are dropped, and the program is named with `department` read as
  `bachelor`.
- **Table scraping** (`Tables`): the number and name cells of every row wide
  enough, over the tables from a start index. There is also the id-to-name
  object that `scrapeLocals` builds.
- **The localisation objects** (`Localize`, and per script in `Polytechnic`,
  `Khadory`, `NnuGrad`): an `arabic` and an `english` object filled by
  last-write-wins assignments under canonical keys.
- **The Firestore upsert loop of `addMajor`** (`Store`). polytechnic.js
  additionally keeps a `miss.json` log of courses whose name is empty. The
  nnu_grad.js variant is modelled as written and also corrected (see
  Findings).
- **The address handling** (`Urls`, `NnuGrad.GradLinks`): the comma-separated
  answer and the Arabic page address derived by `replace("en", "ar")`.

Modelling choices:

- **The `files` collection** is a sequence of documents. The id Firestore
  generates for a new document is its position (`Stored(pos)`). Ids that are
  hard-coded in the scripts are `External(key)`. "The first document a query
  returns" (`docs[0]`) is the lowest position that matches.
- **Strings** are `seq<char>`. `trim` removes exactly the ECMAScript
  white-space and line-terminator characters. `\w` is ASCII
  `[A-Za-z0-9_]`. After the collapse only ASCII word characters remain, so
  the model's ASCII lower-casing is exact.
- **Key order.** A `for...in` over a parsed JSON object visits its keys in an
  order the model does not fix. That order is a parameter, constrained to
  list every key exactly once. Every property is proved for all such orders.

Three behaviours of the code that a reader might expect otherwise:

- **Trailing `_`.** The canonical form of a title ending in punctuation ends
  in `_` ("Arts Department!!" becomes `arts_department_`), because
  nothing strips the `_` that the collapse leaves at the end.
- **`processArray` advances past a merged entry.** After a blank entry takes
  its follower's name, the next position examined is the entry after the
  removed one. The merged entry is not examined again, so two blank entries
  in a row leave the first one still blank.
- **Entries without a number.** An entry with no five-digit number keeps its
  raw, untrimmed text as its name.

## Model

| member | source | states |
|---|---|---|
| Text.Trim | hebron_uni.js:217 | the result is the input with white space cut from both ends and nothing else: a contiguous middle slice, neither end of it white space, empty exactly when the input is all white space |
| Text.TrimIdempotent | hebron_uni.js:217 | trimming twice gives the same as trimming once |
| Text.ToLower | hebron_uni.js:218 | same length, every upper-case ASCII letter lowered and every other character kept |
| Text.ReplaceFirst | polytechnic.js:75 | the first occurrence of the pattern, wherever it is, is replaced; text without the pattern is unchanged |
| Text.Split | khadory.js:169 | there is always at least one piece, and no piece holds the separator |
| Text.JoinSplit | nnu_grad.js:64-65 | joining the pieces with the separator gives the text back |
| Text.SplitJoin | nnu_grad.js:46-65 | splitting text written by `join` gives the parts back when there is at least one and none holds the separator |
| Naming.SnakeCase | polytechnic.js:62-65 | the result holds only lower-case ASCII letters, digits and `_`, is no longer than the input, and is empty exactly when the input is all white space |
| Naming.Canonical | khadory.js:142-146 | a prefixed course name starts with the prefix and continues with a `snake_case` tail |
| Naming.SnakeCaseIdempotent | hebron_uni.js:216-220 | applying `snakeCase` twice gives the same as once |
| Naming.SnakeCaseFixesSnake | hebron_uni.js:216-220 | text already made of lower-case letters, digits and `_` is left unchanged |
| Naming.CanonicalStable | polytechnic.js:174 | a prefixed canonical name is itself a fixed point of `snakeCase` when the prefix is |
| Naming.SnakeCaseOfTrim | polytechnic.js:172-174 | trimming the cell text before `snakeCase` (as the scrapers do) changes nothing |
| Naming.Collapse | hebron_uni.js:217 | after the replacement only ASCII word characters and `_` remain; the text gets no longer, and is empty only when it was |
| Naming.CollapseRun | hebron_uni.js:217 | a run of non-word characters on its own becomes a single `_` |
| Naming.CollapseFromAppend | hebron_uni.js:217 | the global replacement over a concatenation is the replacement of each part, the second continuing any run the first ends in |
| Naming.CollapseWordRunWordRun | hebron_uni.js:217 | word, non-word run, word, non-word run becomes word `_` word `_` |
| Naming.TrailingRun | hebron_uni.js:216-219 | a title made of a word, a run, a word and a run not ending in white space becomes the two lower-cased words joined by `_` and followed by `_` |
| Naming.ArtsDepartmentExample | hebron_uni.js:217-218 | "Arts Department!!" becomes `arts_department_`, trailing `_` included |
| Naming.CollapseAppend | hebron_uni.js:217 | collapsing non-word runs distributes over a split that does not cut through a non-word run |
| Fragments.FindFiveDigitFrom | hebron_uni.js:108 | the search returns the leftmost five-digit run bounded by non-word characters from a position, or none exists |
| Fragments.Normalize | hebron_uni.js:108-113 | an id is present iff the text holds a standalone five-digit number; it is the first one, and the name is the trimmed text without it; otherwise the name is the raw text |
| Fragments.NormalizeAll | hebron_uni.js:106-120 | one entry per fragment, in page order |
| Fragments.NormalizeNoDigits | hebron_uni.js:111-112 | text without digits keeps its raw text and gets no id |
| Fragments.NormalizeNumberOnly | hebron_uni.js:111-112 | a fragment that is just a number gives an empty name and that number |
| Fragments.NormalizeLabelOnly | hebron_uni.js:111-112 | a label without a number is kept verbatim with no id |
| Fragments.ProcessArray | hebron_uni.js:126-140 | the in-place loop with `splice` computes the same list as the recursive repair; the length drops by the number of merges, at most half the input |
| Fragments.BlankExactly | hebron_uni.js:131 | a name is blank iff it consists of at most four spaces |
| Fragments.RepairIdentity | hebron_uni.js:126-140 | the repair changes nothing iff no entry before the last has a blank name |
| Fragments.RepairLength | hebron_uni.js:126-140 | the length stays between n - n/2 and n, and shrinks iff some entry before the last is blank |
| Fragments.RepairKeepsLastName | hebron_uni.js:127-135 | the last name survives the repair and the first entry keeps its id |
| Fragments.RepairSource | hebron_uni.js:131-135 | every output entry is an input entry, or a blank input entry carrying its follower's name |
| Fragments.RepairProvenance | hebron_uni.js:131-135 | every entry of the output has a source entry in the input in that sense |
| Fragments.DoubleBlankExample | hebron_uni.js:127-135 | two blank entries in a row merge into one that is still blank, because the loop moves on |
| Fragments.SplitLabel | hebron_uni.js:106-123 | a number-only fragment followed by a label without a number becomes one entry with the label as name and the number as id |
| Fragments.SplitLabelExample | hebron_uni.js:106-123 | "10002" followed by "Science" becomes the single entry Science / 10002 |
| Hebron.FindById | hebron_uni.js:187 | the first English entry with the same id, or none has it |
| Hebron.MergeOneSpec | hebron_uni.js:187-192 | one Arabic entry gives at most one record; it gives one iff some English entry has its id, and that record is made with the first such entry |
| Hebron.MergeOneShape | hebron_uni.js:187-192 | a record from one Arabic entry is well localised, carries that entry's id, and some English entry has that id |
| Hebron.MergeObjects | hebron_uni.js:161-184 | the record has Arabic (SA, fallback) then English (US) translations with the two names, the Arabic entry's id, and the `hu_` canonical English name |
| Hebron.MergeJsonFiles | hebron_uni.js:186-193 | at most one record per Arabic entry |
| Hebron.MergeJsonFilesAppend | hebron_uni.js:186-193 | merging distributes over concatenation of the Arabic list |
| Hebron.MergeJsonFilesSingle | hebron_uni.js:187-192 | an Arabic entry yields a record iff some English entry shares its id, and that record uses the first such English entry |
| Hebron.MergedRecordsShape | hebron_uni.js:186-193 | every record is well localised and its id occurs in both inputs |
| Hebron.FilterValid | hebron_uni.js:74-76 | a record is kept iff it has a non-blank name and a non-blank `uniID` |
| Hebron.FilterValidAppend | hebron_uni.js:74-76 | filtering distributes over concatenation |
| Hebron.FilterValidIdempotent | hebron_uni.js:74-76 | filtering twice equals filtering once |
| Hebron.MergedRecordValidIff | hebron_uni.js:74-76 | a merged record survives the filter iff its Arabic entry had a non-blank id |
| Hebron.MajorName | hebron_uni.js:80 | the program name is `hu_` followed by the canonical title with its first `department` read as `bachelor`, or the plain canonical title when there is none |
| Hebron.BuildCatalog | hebron_uni.js:78-83 | the rewritten `data.json` holds that program name and exactly the valid records |
| Hebron.PairingExample | hebron_uni.js:186-193 | an Arabic entry 10001 paired against English entries 10001 and 99999 gives one record with id 10001 and English name Arts |
| Tables.CellsSpec | polytechnic.js:164-186 | every row wide enough yields its trimmed cell pair, and every pair comes from such a row |
| Tables.CellsAppend | polytechnic.js:164-186 | the cells of two row lists are the cells of each, concatenated |
| Tables.Scrape | khadory.js:129-155 | the nested table and row loops collect exactly the cells of all rows of the tables from the start index on |
| Tables.AppendTableCells | khadory.js:136-153 | the row loop over one table appends exactly the cells of that table's rows wide enough, in order |
| Tables.FoldCells | polytechnic.js:38-49 | the id-to-name object has a key iff some row has that id, and holds the name of the last row with it |
| Tables.FoldCellsLastWins | khadory.js:35-42 | a row whose id no later row repeats fixes that id's name |
| Localize.Single | polytechnic.js:99-104 | the program entry starts both objects with one shared key |
| Localize.Build | polytechnic.js:105-110 | both objects gain exactly the keys written |
| Localize.BuildValues | polytechnic.js:105-110 | each key holds the values of its last write; keys never written keep their initial values |
| Localize.BuildCoherent | polytechnic.js:105-110 | the two objects keep the same key set, and each key's Arabic and English values come from the same write |
| Localize.CoursePairings | khadory.js:87-92 | in the loop's order, each course writes its Arabic and English names under its canonical English name |
| Localize.PairingKeys | khadory.js:87-92 | the keys written are the canonical names of all paired courses, whatever the order |
| Localize.CombineKeys | polytechnic.js:99-110 | the combined objects share one key set: the initial keys plus the canonical course names |
| Localize.CombineCoherent | polytechnic.js:99-110 | each key holds both names of one course, or the initial pair |
| Store.ProgramDoc | polytechnic.js:275-283 | the program document has no `uniID`, is shown in the drop-down, points to the college and has no parents |
| Store.CourseDoc | polytechnic.js:290-292 | the new course document carries the course's fields and the given parents, with the number under the script's id field |
| Store.FindByUniID | polytechnic.js:289-294 | the first document whose `uniID` equals the number, or none exists |
| Store.FindByUniIDOnlyReadsIds | polytechnic.js:289 | the lookup depends only on the documents' `uniID` fields |
| Store.ProgramRef | polytechnic.js:275-291 | the reference names the program document `add` just created |
| Store.ArrayUnion | polytechnic.js:294-299 | `arrayUnion` adds the reference iff absent, keeping the existing order |
| Store.ArrayUnionIdempotent | polytechnic.js:294-299 | adding the same reference twice equals adding it once |
| Store.EvolvesTrans | khadory.js:206-219 | "only appends and only grows `parents`" composes across steps |
| Store.EvolvesKeeps | khadory.js:206-219 | under that relation no course number and no parent reference is ever lost |
| Store.Upsert | polytechnic.js:289-300 | an unknown number appends one document with the single parent; a known one adds the reference to the first match's parents and changes nothing else |
| Store.UpsertIdempotent | khadory.js:207-218 | upserting the same course and reference twice equals once |
| Store.UpsertUnique | khadory.js:207-218 | upserting keeps course numbers unique across documents |
| Store.UpsertAll | khadory.js:206-219 | the loop only appends and grows parents, adding at most one document per course |
| Store.UpsertAllHolds | khadory.js:206-219 | afterwards every course written under `uniID` has a document holding the program reference |
| Store.UpsertAllUnique | khadory.js:206-219 | the loop keeps course numbers unique |
| Store.UpsertAllNoGrowth | khadory.js:206-219 | courses whose numbers are all present add no document |
| Store.AddMajor | khadory.js:195-220 | the program document is appended first and keeps its content; at most one document per course follows |
| Store.SharedNumberOneDocument | khadory.js:206-218 | two rows with the same new number leave one course document with a single parent |
| Store.AddMajorSharedNumber | khadory.js:195-220 | a run whose two courses share a new number adds the program and a single course document with one parent |
| Store.HasUnnumbered | polytechnic.js:289 | a document without `uniID`, such as the program document, is never found by the number query |
| Store.TwoProgramsOneDocument | polytechnic.js:289-300 | one course listed by two programs is one document with both programs as parents |
| Urls.Links | polytechnic.js:214 | one trimmed link per comma-separated piece |
| Urls.LinksShape | khadory.js:169 | there is always at least one link, none holds a comma, and each is already trimmed |
| Urls.LinksJoin | khadory.js:169 | joining the links gives the answer back when its pieces carry no surrounding white space |
| Urls.ArabicLink | polytechnic.js:75 | the first `en` becomes `ar`, wherever it occurs, and an address without `en` is unchanged |
| Polytechnic.PpuSubject | polytechnic.js:171-183 | the course has its number under `uniID` and as `altName`, and the `ppu_` canonical name |
| Polytechnic.PpuSubjects | polytechnic.js:168-185 | one course per cell pair, in order |
| Polytechnic.ScrapeData | polytechnic.js:148-195 | `data.json` holds one course per row with at least two cells over all tables, and the `ppu_` program name |
| Polytechnic.PpuLocalsKeys | polytechnic.js:41-47 | the id object has a key iff some row with at least two cells has that trimmed first cell |
| Polytechnic.PpuPairs | polytechnic.js:87-97 | an id is paired iff it is in both objects and neither name is empty, with both names |
| Polytechnic.PpuCombineSpec | polytechnic.js:99-110 | both objects share the program key plus the course keys, and each key holds both names of one course or the two page titles |
| Polytechnic.AddObjectToFile | polytechnic.js:254-260 | the miss log gains the key; an existing entry's list grows by the reference; a new one starts with it; other keys are unchanged |
| Polytechnic.AddObjectToFileTwice | polytechnic.js:254-260 | logging the same miss twice records the reference twice |
| Polytechnic.MissIffNameEmpty | polytechnic.js:285 | a scraped course goes to the miss log iff its name cell is empty after trimming |
| Polytechnic.MissIffSnakeEmpty | polytechnic.js:285 | `ppu_` followed by a canonical tail is a miss name iff the tail is empty |
| Polytechnic.Written | polytechnic.js:285-288 | the courses that reach Firestore are exactly those without a miss name |
| Polytechnic.PpuCourses | polytechnic.js:284-301 | the loop only appends and grows parents, and the miss log gains exactly the numbers of the miss courses |
| Polytechnic.PpuCoursesWritten | polytechnic.js:284-301 | the documents the loop leaves equal the plain upsert loop over the written courses |
| Polytechnic.PpuAddMajor | polytechnic.js:273-302 | the program document comes first; the miss log gains exactly the miss courses' numbers |
| Polytechnic.PpuAddMajorWrites | polytechnic.js:273-302 | the documents equal the shared `addMajor` over the written courses, and each of those is held under the program |
| Polytechnic.PpuCoursesAsWritten | polytechnic.js:239-269 | as written the loop never changes the miss file; with the file absent it stops at a nameless course, and only then, with every course before it named |
| Polytechnic.AsWrittenUpserts | polytechnic.js:284-301 | with the miss file present the loop as written finishes, writes the upsert loop over the named courses, and leaves the file as it was |
| Polytechnic.AsWrittenWrites | polytechnic.js:284-301 | with the miss file present the loop as written writes the same documents as the intended one |
| Polytechnic.MissLogLost | polytechnic.js:239-269 | a nameless course whose number the file lacks is recorded by the intended loop but not by the loop as written |
| Polytechnic.AbortsAtFirstMiss | polytechnic.js:284-287 | with no miss file the run stops at the first nameless course, after upserting the courses before it |
| Polytechnic.PpuAddMajorAsWritten | polytechnic.js:273-302 | as written `addMajor` adds the program document first, only appends and grows parents, and never changes the miss file |
| Polytechnic.PpuAddMajorAsWrittenFiles | polytechnic.js:273-302 | with the miss file present, `addMajor` as written finishes with the documents of the intended one |
| Khadory.PtukSubject | khadory.js:139-153 | the course has its number (second cell) under `uniID`, no `altName`, and the `ptuk_` canonical name |
| Khadory.PtukSubjects | khadory.js:136-154 | one course per cell pair, in order |
| Khadory.ScrapeData | khadory.js:119-164 | `data.json` holds one course per row with at least three cells of the tables from index 2 on, and the `ptuk_` program name |
| Khadory.FirstTablesIgnored | khadory.js:131-132 | the first two tables never contribute a course |
| Khadory.MissingTitle | khadory.js:157 | a missing title element gives the bare `ptuk_` program name |
| Khadory.PtukLocalsLastWins | khadory.js:35-42 | a repeated course number keeps the name of its last row |
| Khadory.PtukPairs | khadory.js:73-80 | an id is paired iff it is in both objects, empty names included |
| Khadory.PairsWithEmptyNames | khadory.js:73-80 | an id with an empty name on either side is still paired |
| Khadory.PtukCombineKeys | khadory.js:82-92 | both objects share exactly the canonical names of the paired courses |
| Khadory.PtukCombineCoherent | khadory.js:87-92 | each key holds both names of one course, even when English names collide |
| Khadory.PtukAddMajor | khadory.js:195-220 | the program document is appended first and the rest only appends and grows parents |
| Khadory.PtukAddMajorSpec | khadory.js:206-219 | every course afterwards has a document holding the program, and unique numbers stay unique |
| Khadory.SharedNumberInOneRun | khadory.js:206-218 | two rows with the same new number add the program and one course document |
| NnuGrad.GradSubject | nnu_grad.js:133-146 | the course has its number under `uniId`, no `altName`, and an unprefixed canonical name |
| NnuGrad.GradSubjects | nnu_grad.js:130-148 | one course per cell pair, in order |
| NnuGrad.ScrapeData | nnu_grad.js:115-158 | `data.json` holds one course per row with at least two cells over all tables, and the `grad_` program name |
| NnuGrad.GradNames | nnu_grad.js:29-42 | one trimmed second-cell name per row with at least two cells, in order |
| NnuGrad.NamesFileRoundTrip | nnu_grad.js:46-65 | splitting the written file on line breaks gives the names back when there is at least one and none holds a line break |
| NnuGrad.EmptyNamesFile | nnu_grad.js:46-65 | a page without names reads back as one empty line |
| NnuGrad.SelectSpec | nnu_grad.js:75-84 | the writes are exactly those of the lines passing the test |
| NnuGrad.Positions | nnu_grad.js:75-84 | the positions of the lines passing the test, each once, in increasing order |
| NnuGrad.SelectInOrder | nnu_grad.js:75-84 | write `j` is the write of the `j`-th line passing the test, so the writes come in line order |
| NnuGrad.GradMergeFiles | nnu_grad.js:64-70 | no output iff the two files' line counts differ |
| NnuGrad.AlignLines | nnu_grad.js:72-89 | the two objects share one key set |
| NnuGrad.AlignLinesKeys | nnu_grad.js:75-84 | a key is present iff some line with non-empty English text has it as canonical form |
| NnuGrad.AlignLinesCoherent | nnu_grad.js:75-84 | each key holds the trimmed Arabic and English texts of one line, the last line with that canonical form |
| NnuGrad.LastWriteIsLastLine | nnu_grad.js:75-84 | the last write under a key comes from a line after which no written line has that canonical form |
| NnuGrad.ScrapedNamesAlign | nnu_grad.js:46-67 | the two name files align whenever both pages list equally many names without line breaks |
| NnuGrad.GradCourses | nnu_grad.js:199-212 | the loop either completes or throws at a course whose number is already stored under `uniID`, having appended one document per course before it |
| NnuGrad.GradCoursesAppendAll | nnu_grad.js:199-204 | when no number is present under `uniID`, every course is appended as a new document |
| NnuGrad.GradRunOnce | nnu_grad.js:188-212 | a one-course run whose number is absent adds the program document and one course document |
| NnuGrad.GradCoursesKeepsPrefix | nnu_grad.js:199-212 | documents present before the loop are never changed |
| NnuGrad.GradAddMajor | nnu_grad.js:188-213 | the program document is appended first |
| NnuGrad.GradRerunDuplicates | nnu_grad.js:199-203 | a second run of the same program appends a second course document with the same `uniId` |
| NnuGrad.GradCoursesThrowAt | nnu_grad.js:199-206 | when course `k` is the first whose number is stored under `uniID`, the loop adds the courses before it as new documents and throws at `k` |
| NnuGrad.GradThrowsOnKnownNumber | nnu_grad.js:188-206 | a number already stored under `uniID` at course `k` ends the run there: the program document and the courses before `k` are added, none after |
| NnuGrad.GradAddMajorFixed | nnu_grad.js:188-213 | the corrected run appends the program first, then only appends and grows parents |
| NnuGrad.GradFixedHolds | nnu_grad.js:199-212 | with the fix every course ends up held under the program |
| NnuGrad.GradFixedUnique | nnu_grad.js:199-212 | with the fix unique course numbers stay unique |
| NnuGrad.GradFixedFindsAll | nnu_grad.js:199-212 | with the fix every course number of a run is found afterwards, also once the next program document is added |
| NnuGrad.GradFixedRerun | nnu_grad.js:199-212 | with the fix a second run adds only its program document, and the courses keep the first program reference |
| NnuGrad.GradLinks | nnu_grad.js:162 | one link per comma-separated piece: the trimmed piece followed by `study-plan/` |

## Left out

- Browser automation is not modelled. That covers the Puppeteer sessions, page navigation, clicks, waits and `sleep`. A page is a parameter: its tables as rows of cell texts, or its title and `<strong>` texts.
- Console prompts and `readline` are not modelled. The answers are parameters (`Urls.Links`, `NnuGrad.GradLinks`).
- File reads and writes are not modelled, and neither is JSON formatting. The files are the values the model passes between operations. A missing or unparsable file, and the errors that get logged, are not modelled.
- Firebase initialisation and `addLoclas` are not modelled. `addLoclas` uploads the localisation file, which is I/O only.
- Firestore is modelled as a sequence of documents. A generated document id is the document's position, and a query's `docs[0]` is the lowest-positioned match. Firestore's actual ordering is not modelled, and neither are concurrency, network failure or the asynchronous calls that are not awaited.
- The hebron_uni.js `addMajor` is not modelled. Its only call is commented out, and it reads `major.courses`, which is not a field of the file `filterObjectsWithValidFields` writes. The shared upsert loop (`Store.AddMajor`) is modelled from the other three scripts.
- The program's Arabic title in hebron_uni.js (`majorA`) is not modelled. It is assigned a pending promise and is used only by that `addMajor`.
- Polytechnic.AddObjectToFile states the intended update of `miss.json`. As written the file is never changed: the update sits in a callback that the promise-based `fs.readFile` never calls. The as-written behaviour is `Polytechnic.PpuCoursesAsWritten` (see "## Findings").
- Polytechnic.AddObjectToFileTwice states the intended update of `miss.json`; as written the file never changes, so nothing is recorded twice.
- Polytechnic.PpuCourses states the intended miss-file update. As written the file never changes, and a missing `miss.json` stops the loop at the first nameless course (`Polytechnic.PpuCoursesAsWritten`, `Polytechnic.AbortsAtFirstMiss`).
- Polytechnic.PpuAddMajor states the intended miss-file update. As written the file never changes, and a missing `miss.json` stops the run at the first nameless course (`Polytechnic.PpuAddMajorAsWritten`).
- Hebron.MergeObjects: the record's drop-down flag field is spelled `showinDDM` in hebron_uni.js, khadory.js and nnu_grad.js but `showInDDM` in polytechnic.js. The model keeps one field and does not track the two spellings.
- Keys such as `__proto__` get special treatment in JavaScript objects. The model treats every key as an ordinary map key.
- The `for...in` order over parsed JSON objects is a parameter (`order` in `Localize.Combine`). All properties are proved for every order that lists each key once.
- Lower-casing is ASCII only. That is exact here, because only ASCII word characters and `_` survive the collapse.

## Findings

| source | as written | input that shows it | evidently intended | confidence | as-written member | corrected member |
|---|---|---|---|---|---|---|
| nnu_grad.js:138-203 | courses are stored with their number under `uniId`, but the lookup filters on `uniID` | running the same program twice: the second lookup misses the first run's document, and a second course document with the same `uniId` is added | store and look up the number under the same field, so a rerun joins the program to the existing document | not executed | NnuGrad.GradRerunDuplicates | NnuGrad.GradFixedRerun |
| polytechnic.js:239-269 | `addObjectToFile` hands the update to the promise form of `fs.readFile` (line 2) as a callback, which that form never calls, so `miss.json` is never written | a course whose name cell is empty, with `miss.json` present: nothing is recorded for it | record the program under the course number in `miss.json` | not executed | Polytechnic.MissLogLost | Polytechnic.PpuCourses |
| polytechnic.js:284-287 | the loop awaits `addObjectToFile`, whose read rejects when `miss.json` is absent, so `addMajor` stops there | a course whose name cell is empty, with no `miss.json`: the courses after it are not written | log the miss and go on with the next course | not executed | Polytechnic.AbortsAtFirstMiss | Polytechnic.PpuCoursesWritten |
| nnu_grad.js:205-206 | the update branch calls `FirebaseFirestore.FieldValue.arrayUnion`, and `FirebaseFirestore` is never defined | a collection where another script already stored course number N under `uniID`, and this program lists N: the update branch throws and the remaining courses are not written | use `admin.firestore.FieldValue.arrayUnion` as the other scripts do, adding the program to the existing document's parents | not executed | NnuGrad.GradThrowsOnKnownNumber | NnuGrad.GradFixedHolds |
