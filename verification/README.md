# MPLIB parser and project-instance model

A Dafny model of two parts of the forward-backward scheduling code:

- The project-scheduling instance records, which validate themselves on
  construction. These are `Resource`, `Mode`, `Activity`, `Project` and
  `ProjectInstance`, with their derived counts. The checks are:
  - an activity's `delays` must match its successors in length;
  - every present skill vector must have one entry per skill.
- `parse_mplib`, the reader for multi-project instance files (MPLIB). It
  reads the file's stripped, non-blank lines front to back. Along the way it
  registers every activity under its `"p:a"` name in `id2idx`. Then it
  resolves successor tokens to activity indices, derives the predecessor
  lists, and builds the instance.

The model is split into these modules:

- `Wrappers`: `Option` and `Result`.
- `Text`:
  - Python's `str.strip()` and `str.split()`, using the `str.isspace`
    character set;
  - `int()` on a token, taken as an optional sign and ASCII digits;
  - the f-string rendering of a number.
- `Instance`: the records, their counts, and the two smart constructors
  `NewActivity` and `NewInstance`. Each returns a `Result`.
- `Reader`: the positional reading of the lines into a `RawFile`. At this
  stage successors are still raw tokens. Each way reading can fail is a
  `ReadError`:
  - end of input;
  - a non-integer;
  - a header with neither 2 nor 3 values;
  - an activity line with fewer than two numeric fields;
  - a successor-count mismatch.
- `Precedence`: the resolution pass (`ResolveAll`), and the predecessor
  pass (`Derive`) with a reference definition (`PredsUpTo`) to check it
  against.
- `Mplib`:
  - the first pass (`LayoutOf`), which lays out projects, activities and
    `id2idx`;
  - `Assemble`;
  - `ParseMplib`, which maps a list of raw lines to a
    `Result<ProjectInstance, ParseError>`.

The parser's loops are modelled as functions:

- The file's reading loop is `ReadFile`, whose failure surfaces as `Malformed`.
- The first pass is `LayoutOf`, which cannot fail.
- The resolution loop is `ResolveAll`, whose failure surfaces as `UnknownSuccessor`.
- The predecessor loop is `Derive`.
- The final constructor is `NewInstance`, whose failure would surface as
  `InvalidInstance`. That is proved never to happen.

The Python code reads and registers each activity in one loop. The model
does this in two steps, reading first and laying out second. Registering
cannot fail, so both orders end in the same errors.

The model follows the code, also where it departs from the MPLIB format as
published (whose successor fields are activity numbers local to the
project):

- The capacities line yields one resource per token, whatever
  `num_resources` says.
- An activity line is cut at `num_resources + 2` using Python's slice
  clamping (a negative cut counts from the end). A line with fewer tokens
  than that takes all of them as fields, and so has no successor tokens:
  its last field is read as the successor count, which must then be 0. It
  fails with `TooFewFields` when fewer than two fields remain to unpack.
- Successor tokens are looked up verbatim. No project prefix is added, so a
  file must write each successor as a full `"p:a"` name.
- A successor listed twice produces two predecessor entries. Predecessors
  are counted with multiplicity.

## Model

| member | source | states |
|---|---|---|
| Instance.NewActivity | code/introduction/forward-backward/parser/ProjectInstance.py:84-86 | building an activity fails exactly when `delays` is a non-empty list whose length differs from the number of successors; an absent or empty `delays` is always accepted and the fields are kept as given |
| Instance.ModeCount | code/introduction/forward-backward/parser/ProjectInstance.py:88-90 | `num_modes` is the number of modes |
| Instance.ProjectActivityCount | code/introduction/forward-backward/parser/ProjectInstance.py:116-118 | a project's `num_activities` is the number of its activity indices |
| Instance.InstanceCounts | code/introduction/forward-backward/parser/ProjectInstance.py:144-154 | `num_resources`, `num_activities` and `num_projects` are the lengths of the instance's lists |
| Instance.NumSkillsIsLength | code/introduction/forward-backward/parser/ProjectInstance.py:156-158 | `num_skills` is the length of the skill list when there is one, and 0 exactly when it is absent or empty |
| Instance.ScanModes | code/introduction/forward-backward/parser/ProjectInstance.py:162-168 | the inner check loop accepts an activity exactly when each of its modes has no skill requirements or one per skill |
| Instance.ScanActivities | code/introduction/forward-backward/parser/ProjectInstance.py:161-168 | the activity loop accepts exactly when every mode of every activity matches the skill count |
| Instance.ScanResources | code/introduction/forward-backward/parser/ProjectInstance.py:170-176 | the resource loop accepts exactly when every resource has no skills or one entry per skill |
| Instance.NewInstance | code/introduction/forward-backward/parser/ProjectInstance.py:160-176 | construction succeeds exactly when every present skill vector has `num_skills` entries and then returns the given fields; it reports the mode error exactly when some mode mismatches, and the resource error exactly when the modes match but some resource does not |
| Instance.NewInstanceWithoutSkillVectors | code/introduction/forward-backward/parser/ProjectInstance.py:160-176 | with no skill vector on any mode or resource, construction succeeds whatever the other fields hold |
| Instance.NewInstanceInspectsOnlySkills | code/introduction/forward-backward/parser/ProjectInstance.py:160-176 | two instances that agree on their skill vectors and skill count are accepted or refused together, whatever else differs |
| Text.Strip | code/introduction/forward-backward/parser/parse_mplib.py:23 | `strip()` gives a string with no whitespace at either end, the text between the leading and the trailing whitespace, and is empty exactly when the line is all whitespace |
| Text.SplitTokens | code/introduction/forward-backward/parser/parse_mplib.py:28 | every token of `split()` is non-empty and free of whitespace, and a string has no tokens exactly when it is all whitespace |
| Text.SplitJoin | code/introduction/forward-backward/parser/parse_mplib.py:28 | splitting the space-joined tokens gives the tokens back |
| Text.ParseDigitsMeaning | code/introduction/forward-backward/parser/parse_mplib.py:25-26 | the digit reader returns the value of a non-empty run of ASCII digits and refuses every other string |
| Text.ParseIntMeaning | code/introduction/forward-backward/parser/parse_mplib.py:25-26 | `int()` accepts exactly an optional `+` or `-` followed by one or more digits, with the digits' value, negated after `-` (with no limit on the number of digits, see "Left out") |
| Text.ShowNat | code/introduction/forward-backward/parser/parse_mplib.py:59 | the rendering of a number is a non-empty digit string with that value and no leading zero |
| Text.ParseShowNat | code/introduction/forward-backward/parser/parse_mplib.py:59 | `int()` reads back the rendering of every non-negative number, the only numbers the parser renders (with no limit on the number of digits, see "Left out") |
| Mplib.NameInjective | code/introduction/forward-backward/parser/parse_mplib.py:59 | two `"p:a"` names are equal exactly when their project and activity numbers are |
| Reader.CleanLines | code/introduction/forward-backward/parser/parse_mplib.py:23 | every line the parser iterates over is stripped, non-blank and tokenized, and there are no more of them than raw lines |
| Reader.CleanLinesAppend | code/introduction/forward-backward/parser/parse_mplib.py:23 | cleaning works line by line: the cleaned lines of a concatenation are those of its parts, in order |
| Reader.CleanLine | code/introduction/forward-backward/parser/parse_mplib.py:23 | a single line survives exactly when it does not strip to the empty string, and survives stripped |
| Reader.ParseInts | code/introduction/forward-backward/parser/parse_mplib.py:28 | `list(map(int, tokens))` succeeds exactly when every token is an integer, with one value per token |
| Reader.ParseIntsMeaning | code/introduction/forward-backward/parser/parse_mplib.py:28 | each value is its own token read as an integer, and a failure names the first token that is not one |
| Reader.ReadInt | code/introduction/forward-backward/parser/parse_mplib.py:25-26 | reading a count succeeds exactly when a line is left and the whole line is an integer; otherwise it reports the line or the end of input |
| Reader.ReadInts | code/introduction/forward-backward/parser/parse_mplib.py:28 | reading a line of integers succeeds exactly when a line is left and all its tokens are integers, one value per token, and a failure names the first bad token or the end of input |
| Reader.ReadHeader | code/introduction/forward-backward/parser/parse_mplib.py:36-44 | a header is read exactly when its tokens are 2 or 3 integers; 3 give a due date and 2 give none; any other number of integers is a `HeaderArity` error |
| Reader.ReadHeaderErrors | code/introduction/forward-backward/parser/parse_mplib.py:36-44 | a header read with no line left fails with end of input, and a header line that is not all integers fails naming its first non-integer token |
| Reader.ParseActivityMeaning | code/introduction/forward-backward/parser/parse_mplib.py:52-56 | an activity line parses exactly when the fields before `num_resources + 2` (sliced as Python does) are at least two integers and the last of them counts the remaining tokens; the result's duration, demands and successor tokens are those fields and tokens |
| Reader.ParseActivityErrors | code/introduction/forward-backward/parser/parse_mplib.py:52-56 | a bad activity line reports the first field before the cut that is not an integer; else `TooFewFields` when fewer than two fields remain to unpack; else `SuccessorCountMismatch` of the declared count and the number of tokens after the cut |
| Reader.ReadActivityMeaning | code/introduction/forward-backward/parser/parse_mplib.py:52-56 | one activity is read exactly when a line is left and it is well formed, and it is what that line describes; a failure on a line that is left carries the error of parsing that line |
| Reader.ReadActivities | code/introduction/forward-backward/parser/parse_mplib.py:51-52 | the activity loop reads one line per activity, exactly the requested number |
| Reader.ReadActivitiesSucceeds | code/introduction/forward-backward/parser/parse_mplib.py:51-52 | `count` activities are read exactly when `count` lines remain from `pos` and each is a well-formed activity line |
| Reader.ReadActivitiesFailure | code/introduction/forward-backward/parser/parse_mplib.py:51-56 | a failed activity loop reports the error of its first line that does not read; every line before that one is well formed |
| Reader.ReadActivitiesDescribed | code/introduction/forward-backward/parser/parse_mplib.py:51-56 | each activity read is what its own line parses to, in line order |
| Reader.ReadProject | code/introduction/forward-backward/parser/parse_mplib.py:36-52 | a project is its header, the ignored resource-usage line and as many activity lines as the header announces (none when negative) |
| Reader.ReadProjectSucceeds | code/introduction/forward-backward/parser/parse_mplib.py:36-52 | a project is read exactly when its header line holds 2 or 3 integers, some line follows it whatever it holds (the resource-usage line, never parsed), and the header's count of well-formed activity lines (none if negative) follows that |
| Reader.ReadProjectFailure | code/introduction/forward-backward/parser/parse_mplib.py:36-56 | a failed project read reports the header's error when the header does not read; else end of input when no resource-usage line is left; else the error of the first of its activity lines that does not read |
| Reader.ReadProjectDescribed | code/introduction/forward-backward/parser/parse_mplib.py:46-56 | a project's activity lines start two lines after its header, and each activity is what its line parses to |
| Reader.ReadProjects | code/introduction/forward-backward/parser/parse_mplib.py:35 | the project loop reads the requested number of projects back to back, each with as many activities as its header says |
| Reader.ReadProjectsSucceeds | code/introduction/forward-backward/parser/parse_mplib.py:35-52 | the project loop succeeds exactly when the lines are laid out as the requested number of projects, each as `Reader.ReadProjectSucceeds` describes |
| Reader.ReadProjectsFailure | code/introduction/forward-backward/parser/parse_mplib.py:35-56 | a failed project loop reports the error of its first project that does not read; the projects before it are well laid out and it starts where they end |
| Reader.ReadFile | code/introduction/forward-backward/parser/parse_mplib.py:25-61 | a file that reads has its project count on the first line, its resource count on the second and one capacity per token of the third; it holds `max(0, num_projects)` projects and consumes exactly their lines |
| Reader.ReadFileSucceeds | code/introduction/forward-backward/parser/parse_mplib.py:25-56 | a file reads exactly when its first two lines are integers, its third is a line of integers, and the first line's count of well-formed projects follows |
| Reader.ReadFileFailure | code/introduction/forward-backward/parser/parse_mplib.py:25-56 | a failed file read reports, in order, the error of the project-count line, the resource-count line, the capacity line, or else the project loop's error |
| Reader.ReadFileHeader | code/introduction/forward-backward/parser/parse_mplib.py:35-44 | in a file that reads, the header of the `q`-th project is what line `3 + (lines of the earlier projects)` reads to |
| Reader.ReadFileActivity | code/introduction/forward-backward/parser/parse_mplib.py:35-56 | in a file that reads, the `b`-th activity of the `q`-th project is what line `3 + (lines of the earlier projects) + 2 + b` parses to |
| Reader.ReadProjectsDescribes | code/introduction/forward-backward/parser/parse_mplib.py:35-56 | among the projects read from the fourth line, the `b`-th activity of the `q`-th project is what the line after its header, its usage line and its project's earlier activity lines parses to, and is described by that line |
| Reader.ReadFilePrefix | code/introduction/forward-backward/parser/parse_mplib.py:25-52 | a prefix of the lines reads the same file when it holds every line consumed and otherwise fails with end of input; no partial file is returned |
| Mplib.AddActivitiesMeaning | code/introduction/forward-backward/parser/parse_mplib.py:51-61 | the activity loop of the first pass appends the project's activities in order, each under a fresh name mapped to its own index |
| Mplib.LayoutOfMeaning | code/introduction/forward-backward/parser/parse_mplib.py:35-61 | the first pass registers every activity of the file in file order, and `id2idx` maps each name to its activity's index and has no other keys |
| Mplib.LayoutOfProjects | code/introduction/forward-backward/parser/parse_mplib.py:48-49 | with consistent headers, project `q` holds the indices from the number of earlier activities on, one per activity |
| Mplib.FlatAt | code/introduction/forward-backward/parser/parse_mplib.py:59-61 | the `b`-th activity of project `q` is registered at index `Offset(q) + b` as activity `b + 1` of project `q + 1` |
| Mplib.IdsAreNames | code/introduction/forward-backward/parser/parse_mplib.py:59-60 | a string is a key of `id2idx` exactly when it is `"p:a"` for an activity `a` of a project `p` |
| Precedence.ResolveListMeaning | code/introduction/forward-backward/parser/parse_mplib.py:66 | a successor list resolves exactly when every token is a key, to the keys' indices in order; a failure names the first missing token |
| Precedence.ResolveAllMeaning | code/introduction/forward-backward/parser/parse_mplib.py:63-67 | all lists resolve exactly when each does, and the `i`-th result is the `i`-th list resolved |
| Precedence.ResolveAllFailure | code/introduction/forward-backward/parser/parse_mplib.py:63-67 | a failed resolution reports the missing token of the first list that fails |
| Precedence.ResolvedInRange | code/introduction/forward-backward/parser/parse_mplib.py:60-67 | when every value of the map is an index below `n`, every resolved successor is too |
| Precedence.AddEdgesAppends | code/introduction/forward-backward/parser/parse_mplib.py:72-73 | one activity's pass appends its index to list `j` once per occurrence of `j` among its successors and changes nothing else |
| Precedence.DeriveMeaning | code/introduction/forward-backward/parser/parse_mplib.py:69-73 | the derived predecessor lists equal the reference lists: each activity below, as often as it names `j`, in ascending order |
| Precedence.DeriveInverse | code/introduction/forward-backward/parser/parse_mplib.py:69-73 | `i` occurs in the predecessors of `j` exactly as often as `j` occurs in the successors of `i`; every predecessor list is ascending and in range |
| Precedence.DeriveOnlyIndices | code/introduction/forward-backward/parser/parse_mplib.py:69-73 | no value outside the activity indices reaches a predecessor list |
| Mplib.Assemble | code/introduction/forward-backward/parser/parse_mplib.py:63-75 | the instance's construction never fails, and an assembled instance is valid and has no skills |
| Mplib.AssembleResources | code/introduction/forward-backward/parser/parse_mplib.py:28-29 | one resource per capacity token, in order, renewable and without skills |
| Mplib.AssembleProjects | code/introduction/forward-backward/parser/parse_mplib.py:48-49 | project `q` owns the contiguous indices after the earlier projects' activities, and the projects' lists laid end to end are `0, 1, ..., N - 1` |
| Mplib.AssembleActivity | code/introduction/forward-backward/parser/parse_mplib.py:52-67 | the `b`-th activity of project `q` is named `"q+1:b+1"`, has the single mode of its line, no delays, is not optional, has no selection groups, and each successor index points at the activity its token names |
| Mplib.AssembleNames | code/introduction/forward-backward/parser/parse_mplib.py:59-60 | activity names are pairwise distinct and `id2idx` maps each to its own index |
| Mplib.AssemblePredecessors | code/introduction/forward-backward/parser/parse_mplib.py:69-73 | in the instance, predecessors and successors are inverse with multiplicity, and every predecessor list is ascending and in range |
| Mplib.NamedResolves | code/introduction/forward-backward/parser/parse_mplib.py:63-67 | when every successor token names an activity of the file, resolution succeeds, forward and self references included |
| Mplib.ResolvedNamed | code/introduction/forward-backward/parser/parse_mplib.py:63-67 | when resolution succeeds, every successor token names an activity of the file |
| Mplib.UnresolvedUnnamed | code/introduction/forward-backward/parser/parse_mplib.py:66 | a failed resolution reports a token that names no activity |
| Mplib.AssembleResolves | code/introduction/forward-backward/parser/parse_mplib.py:63-67 | assembly succeeds exactly when every successor token names an activity of the file, and otherwise fails with a token that names none |
| Mplib.ParseMplib | code/introduction/forward-backward/parser/parse_mplib.py:7-75 | parsing never ends in a construction error, and a parsed instance is valid and has no skills |
| Mplib.ParseMplibCounts | code/introduction/forward-backward/parser/parse_mplib.py:25-35 | on success there are at least three lines, one project per round of the project loop, and one renewable resource without skills per token of the capacities line, with that token's value |
| Mplib.ParseMplibActivity | code/introduction/forward-backward/parser/parse_mplib.py:51-67 | each activity of the instance is what its own line of the file parses to: its name, its single mode and its successors, which are the activities named by the line's trailing tokens |
| Mplib.ParseMplibProject | code/introduction/forward-backward/parser/parse_mplib.py:36-49 | the `q`-th project of the instance is what its own header line says: the header's count of activities (none if negative) at the indices after the earlier projects' activities, with its release and due dates |
| Mplib.ParseMplibResolves | code/introduction/forward-backward/parser/parse_mplib.py:63-67 | a file that reads parses exactly when every successor token names one of its activities, and otherwise fails with a token that names none |
| Mplib.ParseMplibSucceeds | code/introduction/forward-backward/parser/parse_mplib.py:25-67 | parsing fails with a reading error exactly when the non-blank lines are not a well-formed file, and that error is the one the file read reports; any other failure is a dangling successor |
| Mplib.ParseMplibTruncated | code/introduction/forward-backward/parser/parse_mplib.py:23-61 | cutting the file after any line either gives the same instance or fails with end of input |

## Left out

- Opening and reading the file (`open`, `readlines`). The input is the
  file's lines as `readlines()` returns them, so I/O does not appear.
- `int()` also accepts underscores between digits, non-ASCII Unicode digits
  and surrounding whitespace. None of these are modelled. Tokens and
  stripped lines never carry surrounding whitespace anyway.
- Text.ParseIntMeaning, Text.ParseInt: CPython's limit on the digits of an integer string
  conversion is not modelled. Since CPython 3.11, and in the 3.10.7, 3.9.14,
  3.8.14 and 3.7.14 security releases, `int()` raises `ValueError` on a
  string of more than `sys.get_int_max_str_digits()` digits. That limit is
  4300 by default, can be changed, and is turned off by 0. The model reads
  an integer of any length, so a file with a longer token parses here and
  fails under such an interpreter.
- Text.ParseShowNat: for the same reason, the round trip is stated for numbers of
  any length. Under that limit, CPython neither renders nor reads back a
  number of more than 4300 digits. The parser renders only project and
  activity numbers, which stay far below that.
- Exception classes and messages (`StopIteration`, `ValueError`,
  `KeyError`, `AssertionError`). Each error is a distinct variant of
  `ReadError`, `ParseError` or `ModelError` instead.
- Python's `-O` flag removes the `assert` on the successor count. The model
  always checks the count and fails with `SuccessorCountMismatch`.
- In-place mutation of `activity.successors` and `predecessors`, and
  dataclass defaults. The passes build new values instead. The source runs
  the activity's construction check when an activity is appended, before
  its successors are resolved. The model runs the same check (`NewActivity`)
  once, on the finished activity. An activity without delays passes it
  either way.
- Precedence.Derive: requires every successor to be an activity index. In
  the parser every resolved index is one, which is proved by
  `Precedence.ResolvedInRange`. An index outside the list cannot arise from
  the parser, so what Python would do with one (wrap around for `-N..-1`,
  raise `IndexError` otherwise) is not modelled.
- The predecessor pass appends `id2idx[activity.name]`. The model appends
  the activity's own index instead, and `Mplib.AssembleNames` proves that
  the two are the same.
- The chain from a line to an instance activity is stated in two steps,
  `Reader.ReadFileActivity` and `Mplib.AssembleActivity`.
  `Mplib.ParseMplibActivity` joins them for one activity at a time, and
  `Mplib.ParseMplibProject` does the same for one project header. There is
  no single statement about all activities or projects at once.
- Any scheduling or forward-backward algorithm, and the other parsers of the
  repository. None of them is part of this model.
