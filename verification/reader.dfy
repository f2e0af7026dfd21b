/** The reading stage of the MPLIB parser: the file's non-blank lines are
    consumed front to back, and every field is read from its fixed position.
    The result still holds each activity's successors as the raw tokens of
    the file. */
module Reader {
  import opened Wrappers
  import opened Text

  /** Why reading failed. */
  datatype ReadError =
    | EndOfInput                                        // a line was required, none was left
    | NotAnInteger(text: string)                        // int() refused a token or a line
    | HeaderArity(count: nat)                           // a project header had neither 2 nor 3 values
    | TooFewFields(count: nat)                          // an activity line had under 2 numeric fields
    | SuccessorCountMismatch(declared: int, found: nat) // the successor count disagreed with the tokens

  /** A value read, and the position of the first line not yet consumed. */
  datatype Read<+T> = Read(value: T, next: nat)

  /** A project header: `<num_activities> <release_date> [<due_date>]`. */
  datatype Header = Header(numActivities: int, releaseDate: int, dueDate: Option<int>)

  /** An activity line with its successors still as tokens. */
  datatype RawActivity = RawActivity(duration: int, demands: seq<int>, successors: seq<string>)

  datatype RawProject = RawProject(header: Header, activities: seq<RawActivity>)

  datatype RawFile = RawFile(
    numProjects: int,
    numResources: int,
    capacities: seq<int>,
    projects: seq<RawProject>)

  /** A stripped, non-blank line of the file together with its
      whitespace-separated tokens. */
  datatype Line = Line(text: string, tokens: seq<string>)

  /** A line as the parser sees it: stripped, non-blank, and tokenized. */
  predicate IsCleanLine(l: Line) {
    && l.text != []
    && !IsSpace(l.text[0])
    && !IsSpace(l.text[|l.text| - 1])
    && l.tokens == Split(l.text)
  }

  /** The lines the parser iterates over: each line of the file stripped,
      the blank ones dropped, in file order. */
  function CleanLines(raw: seq<string>): (lines: seq<Line>)
    ensures |lines| <= |raw|
    ensures forall k :: 0 <= k < |lines| ==> IsCleanLine(lines[k])
  {
    if raw == [] then []
    else
      var rest := CleanLines(raw[1..]);
      var text := Strip(raw[0]);
      if text == [] then rest
      else
        var lines := [Line(text, Split(text))] + rest;
        assert forall k :: 1 <= k < |lines| ==> lines[k] == rest[k - 1];
        lines
  }

  /** Cleaning works line by line: the lines of a concatenation are the
      lines of its parts, in order, and a single line survives exactly when
      it is not blank. */
  lemma {:induction false} CleanLinesAppend(a: seq<string>, b: seq<string>)
    ensures CleanLines(a + b) == CleanLines(a) + CleanLines(b)
    decreases |a|
  {
    if a == [] {
      assert a + b == b;
    } else {
      assert (a + b)[1..] == a[1..] + b;
      CleanLinesAppend(a[1..], b);
    }
  }

  lemma CleanLine(l: string)
    ensures CleanLines([l]) == if Strip(l) == [] then [] else [Line(Strip(l), Split(Strip(l)))]
  {
    assert [l][1..] == [];
  }

  /** `max(0, n)`, the number of rounds `range(n)` runs. */
  function Rounds(n: int): nat {
    if n < 0 then 0 else n
  }

  /** Where Python's slice `s[:i]` ends (and `s[i:]` starts) in a sequence of
      length `len`: a negative `i` counts from the end, and the result is
      clamped to `[0, len]`. */
  function SliceIndex(i: int, len: nat): (cut: nat)
    ensures cut <= len
    ensures 0 <= i <= len ==> cut == i
    ensures i > len ==> cut == len
    ensures i < 0 ==> cut == (if len + i < 0 then 0 else len + i)
  {
    if i < 0 then (if len + i < 0 then 0 else len + i)
    else if i > len then len
    else i
  }

  predicate AllInts(tokens: seq<string>) {
    forall k :: 0 <= k < |tokens| ==> ParseInt(tokens[k]).Some?
  }

  /** `k` is the first token that is not an integer. */
  predicate FirstNonInteger(tokens: seq<string>, k: int) {
    && 0 <= k < |tokens|
    && ParseInt(tokens[k]).None?
    && forall k' :: 0 <= k' < k ==> ParseInt(tokens[k']).Some?
  }

  /** `list(map(int, tokens))`: fails on the first token that is not an
      integer. */
  function ParseInts(tokens: seq<string>): (r: Result<seq<int>, ReadError>)
    ensures r.Success? <==> AllInts(tokens)
    ensures r.Success? ==> |r.value| == |tokens|
  {
    if tokens == [] then Success([])
    else
      match ParseInt(tokens[0])
      case None => Failure(NotAnInteger(tokens[0]))
      case Some(v) =>
        match ParseInts(tokens[1..])
        case Failure(e) => Failure(e)
        case Success(rest) => Success([v] + rest)
  }

  /** Each value is the token at its position read as an integer, and a
      failure names the first token that is not one. */
  lemma {:induction false} ParseIntsMeaning(tokens: seq<string>)
    ensures ParseInts(tokens).Success? ==>
              forall k :: 0 <= k < |tokens| ==> ParseInt(tokens[k]) == Some(ParseInts(tokens).value[k])
    ensures ParseInts(tokens).Failure? ==>
              exists k :: FirstNonInteger(tokens, k) && ParseInts(tokens).error == NotAnInteger(tokens[k])
  {
    if tokens != [] && ParseInt(tokens[0]).Some? {
      var rest := tokens[1..];
      ParseIntsMeaning(rest);
      if ParseInts(rest).Failure? {
        var k :| FirstNonInteger(rest, k) && ParseInts(rest).error == NotAnInteger(rest[k]);
        assert FirstNonInteger(tokens, k + 1);
      } else {
        assert forall k :: 1 <= k < |tokens| ==> tokens[k] == rest[k - 1];
      }
    } else if tokens != [] {
      assert FirstNonInteger(tokens, 0);
    }
  }

  /** `next(lines)`. */
  function NextLine(lines: seq<Line>, pos: nat): (r: Result<Read<Line>, ReadError>)
    ensures r.Success? <==> pos < |lines|
    ensures r.Success? ==> r.value == Read(lines[pos], pos + 1)
    ensures r.Failure? ==> r.error == EndOfInput
  {
    if pos < |lines| then Success(Read(lines[pos], pos + 1)) else Failure(EndOfInput)
  }

  /** `int(next(lines))`: the whole line must be one integer. */
  function ReadInt(lines: seq<Line>, pos: nat): (r: Result<Read<int>, ReadError>)
    ensures r.Success? <==> pos < |lines| && ParseInt(lines[pos].text).Some?
    ensures r.Success? ==> r.value == Read(ParseInt(lines[pos].text).value, pos + 1)
    ensures r.Failure? ==>
              if pos < |lines| then r.error == NotAnInteger(lines[pos].text) else r.error == EndOfInput
  {
    var line :- NextLine(lines, pos);
    match ParseInt(line.value.text)
    case None => Failure(NotAnInteger(line.value.text))
    case Some(v) => Success(Read(v, line.next))
  }

  /** `list(map(int, next(lines).split()))`. */
  function ReadInts(lines: seq<Line>, pos: nat): (r: Result<Read<seq<int>>, ReadError>)
    ensures r.Success? <==> pos < |lines| && AllInts(lines[pos].tokens)
    ensures r.Success? ==>
              && r.value.next == pos + 1
              && |r.value.value| == |lines[pos].tokens|
              && forall k :: 0 <= k < |r.value.value| ==> ParseInt(lines[pos].tokens[k]) == Some(r.value.value[k])
    ensures r.Failure? ==> pos < |lines| || r.error == EndOfInput
    ensures r.Failure? && pos < |lines| ==>
              exists k :: FirstNonInteger(lines[pos].tokens, k) && r.error == NotAnInteger(lines[pos].tokens[k])
  {
    var line :- NextLine(lines, pos);
    ParseIntsMeaning(line.value.tokens);
    var values :- ParseInts(line.value.tokens);
    Success(Read(values, line.next))
  }

  /** A project header: three values give a due date, two give none, and
      any other count is refused once every token has been read as an
      integer. */
  function ReadHeader(lines: seq<Line>, pos: nat): (r: Result<Read<Header>, ReadError>)
    ensures r.Success? <==>
              pos < |lines| && AllInts(lines[pos].tokens) && |lines[pos].tokens| in {2, 3}
    ensures r.Success? ==>
              var toks := lines[pos].tokens;
              && r.value.next == pos + 1
              && ParseInt(toks[0]) == Some(r.value.value.numActivities)
              && ParseInt(toks[1]) == Some(r.value.value.releaseDate)
              && (r.value.value.dueDate.Some? <==> |toks| == 3)
              && (|toks| == 3 ==> ParseInt(toks[2]) == r.value.value.dueDate)
    ensures pos < |lines| && AllInts(lines[pos].tokens) && |lines[pos].tokens| !in {2, 3} ==>
              r == Failure(HeaderArity(|lines[pos].tokens|))
  {
    var values :- ReadInts(lines, pos);
    var v := values.value;
    if |v| == 3 then Success(Read(Header(v[0], v[1], Some(v[2])), values.next))
    else if |v| == 2 then Success(Read(Header(v[0], v[1], None), values.next))
    else Failure(HeaderArity(|v|))
  }

  /** A missing header line is the end of input, and a header with a token
      that is not an integer reports the first such token. */
  lemma ReadHeaderErrors(lines: seq<Line>, pos: nat)
    ensures pos >= |lines| ==> ReadHeader(lines, pos) == Failure(EndOfInput)
    ensures pos < |lines| && !AllInts(lines[pos].tokens) ==>
              exists k :: FirstNonInteger(lines[pos].tokens, k) && ReadHeader(lines, pos) == Failure(NotAnInteger(lines[pos].tokens[k]))
  {
    if pos < |lines| && !AllInts(lines[pos].tokens) {
      assert ReadInts(lines, pos).Failure?;
      var k :| FirstNonInteger(lines[pos].tokens, k) && ReadInts(lines, pos).error == NotAnInteger(lines[pos].tokens[k]);
    }
  }

  /** The tokens of an activity line are well formed for `numResources`
      resources: the fields before the cut are integers, at least two of
      them, and the last of them counts the tokens after the cut. */
  predicate WellFormedActivity(toks: seq<string>, numResources: int) {
    var cut := SliceIndex(numResources + 2, |toks|);
    && AllInts(toks[..cut])
    && cut >= 2
    && ParseInt(toks[cut - 1]) == Some(|toks| - cut)
  }

  /** `act` is what the activity line with tokens `toks` says: the duration
      first, then the demands, then (skipping the count) the successor
      tokens. */
  predicate Describes(toks: seq<string>, numResources: int, act: RawActivity) {
    var cut := SliceIndex(numResources + 2, |toks|);
    && 2 <= cut
    && ParseInt(toks[0]) == Some(act.duration)
    && |act.demands| == cut - 2
    && (forall d :: 0 <= d < |act.demands| ==> ParseInt(toks[d + 1]) == Some(act.demands[d]))
    && act.successors == toks[cut..]
  }

  /** The fields of one activity line. The tokens before `numResources + 2`
      are read as integers (with Python's slicing of a shorter line); fewer
      than two of them cannot be unpacked; the last of them must equal the
      number of tokens that follow. */
  function ParseActivity(toks: seq<string>, numResources: int): (r: Result<RawActivity, ReadError>) {
    var cut := SliceIndex(numResources + 2, |toks|);
    var fields :- ParseInts(toks[..cut]);
    if |fields| < 2 then Failure(TooFewFields(|fields|))
    else
      var declared := fields[|fields| - 1];
      var successors := toks[cut..];
      if |successors| != declared then Failure(SuccessorCountMismatch(declared, |successors|))
      else
        Success(RawActivity(fields[0], fields[1..|fields| - 1], successors))
  }

  /** An activity line parses exactly when it is well formed, and what it
      parses to is what the line describes. */
  lemma ParseActivityMeaning(toks: seq<string>, numResources: int)
    ensures ParseActivity(toks, numResources).Success? <==> WellFormedActivity(toks, numResources)
    ensures ParseActivity(toks, numResources).Success? ==> Describes(toks, numResources, ParseActivity(toks, numResources).value)
  {
    var cut := SliceIndex(numResources + 2, |toks|);
    var fields := ParseInts(toks[..cut]);
    ParseIntsMeaning(toks[..cut]);
    if fields.Success? && |fields.value| >= 2 {
      var f := fields.value;
      var demands := f[1..|f| - 1];
      assert forall d :: 0 <= d < |demands| ==> demands[d] == f[d + 1];
    }
  }

  /** Which error a bad activity line gives: the first field that is not an
      integer; else too few fields to unpack; else the declared successor
      count against the number of tokens after the cut. */
  lemma ParseActivityErrors(toks: seq<string>, numResources: int)
    ensures var cut := SliceIndex(numResources + 2, |toks|);
            var r := ParseActivity(toks, numResources);
            && (!AllInts(toks[..cut]) ==>
                  exists k :: FirstNonInteger(toks[..cut], k) && r == Failure(NotAnInteger(toks[k])))
            && (AllInts(toks[..cut]) && cut < 2 ==> r == Failure(TooFewFields(cut)))
            && (AllInts(toks[..cut]) && cut >= 2 && ParseInt(toks[cut - 1]) != Some(|toks| - cut) ==>
                  r == Failure(SuccessorCountMismatch(ParseInt(toks[cut - 1]).value, |toks| - cut)))
  {
    var cut := SliceIndex(numResources + 2, |toks|);
    ParseIntsMeaning(toks[..cut]);
    if !AllInts(toks[..cut]) {
      var k :| FirstNonInteger(toks[..cut], k) && ParseInts(toks[..cut]).error == NotAnInteger(toks[..cut][k]);
      assert toks[..cut][k] == toks[k];
    } else if cut >= 2 {
      assert toks[..cut][cut - 1] == toks[cut - 1];
    }
  }

  /** `next(lines).split()`, then the activity's fields. */
  function ReadActivity(lines: seq<Line>, pos: nat, numResources: int): (r: Result<Read<RawActivity>, ReadError>)
    ensures r.Success? ==> pos < |lines| && r.value.next == pos + 1
    ensures r.Failure? ==> pos < |lines| || r.error == EndOfInput
  {
    if pos < |lines| then
      match ParseActivity(lines[pos].tokens, numResources)
      case Failure(e) => Failure(e)
      case Success(act) => Success(Read(act, pos + 1))
    else Failure(EndOfInput)
  }

  /** An activity line is read exactly when it is well formed, and what is
      read is what the line describes. */
  lemma ReadActivityMeaning(lines: seq<Line>, pos: nat, numResources: int)
    ensures ReadActivity(lines, pos, numResources).Success? <==>
              pos < |lines| && WellFormedActivity(lines[pos].tokens, numResources)
    ensures ReadActivity(lines, pos, numResources).Success? ==>
              Describes(lines[pos].tokens, numResources, ReadActivity(lines, pos, numResources).value.value)
    ensures pos < |lines| && ReadActivity(lines, pos, numResources).Failure? ==>
              ReadActivity(lines, pos, numResources) == Failure(ParseActivity(lines[pos].tokens, numResources).error)
  {
    if pos < |lines| {
      ParseActivityMeaning(lines[pos].tokens, numResources);
    }
  }

  /** Each of the activities `acts` is what its own line parses to,
      starting at line `pos`. */
  predicate DescribedBy(lines: seq<Line>, pos: nat, numResources: int, acts: seq<RawActivity>) {
    && (|acts| > 0 ==> pos + |acts| <= |lines|)
    && forall a :: 0 <= a < |acts| ==> ParseActivity(lines[pos + a].tokens, numResources) == Success(acts[a])
  }

  lemma DescribedByCons(lines: seq<Line>, pos: nat, numResources: int, first: RawActivity, rest: seq<RawActivity>)
    requires pos < |lines| && ParseActivity(lines[pos].tokens, numResources) == Success(first)
    requires DescribedBy(lines, pos + 1, numResources, rest)
    ensures DescribedBy(lines, pos, numResources, [first] + rest)
  {
    var acts := [first] + rest;
    forall a | 0 <= a < |acts|
      ensures ParseActivity(lines[pos + a].tokens, numResources) == Success(acts[a])
    {
      if a > 0 {
        assert acts[a] == rest[a - 1];
        assert pos + a == (pos + 1) + (a - 1);
      }
    }
  }

  /** `count` activity lines, one per line. */
  function ReadActivities(lines: seq<Line>, pos: nat, numResources: int, count: nat): (r: Result<Read<seq<RawActivity>>, ReadError>)
    ensures r.Success? ==>
              && r.value.next == pos + count
              && (count > 0 ==> r.value.next <= |lines|)
              && |r.value.value| == count
    decreases count
  {
    if count == 0 then Success(Read([], pos))
    else
      match ReadActivity(lines, pos, numResources)
      case Failure(e) => Failure(e)
      case Success(first) =>
        match ReadActivities(lines, pos + 1, numResources, count - 1)
        case Failure(e) => Failure(e)
        case Success(rest) => Success(Read([first.value] + rest.value, rest.next))
  }

  /** Each activity read is the one its own line describes. */
  lemma {:induction false} ReadActivitiesDescribed(lines: seq<Line>, pos: nat, numResources: int, count: nat)
    requires ReadActivities(lines, pos, numResources, count).Success?
    ensures DescribedBy(lines, pos, numResources, ReadActivities(lines, pos, numResources, count).value.value)
    decreases count
  {
    if count > 0 {
      var first := ReadActivity(lines, pos, numResources).value;
      ReadActivitiesDescribed(lines, pos + 1, numResources, count - 1);
      DescribedByCons(lines, pos, numResources, first.value, ReadActivities(lines, pos + 1, numResources, count - 1).value.value);
    }
  }

  /** `count` well-formed activity lines from line `pos` on (none is
      needed when `count` is 0). */
  predicate ActivityLinesAt(lines: seq<Line>, pos: nat, numResources: int, count: nat) {
    && (count > 0 ==> pos + count <= |lines|)
    && forall line :: pos <= line < pos + count ==> WellFormedActivity(lines[line].tokens, numResources)
  }

  /** `count` activities are read exactly when `count` lines are left and
      each of them is a well-formed activity line. */
  lemma {:induction false} ReadActivitiesSucceeds(lines: seq<Line>, pos: nat, numResources: int, count: nat)
    ensures ReadActivities(lines, pos, numResources, count).Success? <==> ActivityLinesAt(lines, pos, numResources, count)
    decreases count
  {
    if count > 0 {
      ReadActivitiesStep(lines, pos, numResources, count);
      ReadActivityMeaning(lines, pos, numResources);
      ReadActivitiesSucceeds(lines, pos + 1, numResources, count - 1);
      if ActivityLinesAt(lines, pos, numResources, count) {
        assert WellFormedActivity(lines[pos].tokens, numResources);
        assert ActivityLinesAt(lines, pos + 1, numResources, count - 1);
      }
      if pos < |lines| && WellFormedActivity(lines[pos].tokens, numResources) &&
         ActivityLinesAt(lines, pos + 1, numResources, count - 1) {
        assert ActivityLinesAt(lines, pos, numResources, count);
      }
    }
  }

  /** Of `count` activity lines from `pos`, the `a`-th is the first that
      does not read, and it fails with `e`. */
  predicate FirstBadActivity(lines: seq<Line>, pos: nat, numResources: int, count: nat, a: nat, e: ReadError) {
    && a < count
    && ActivityLinesAt(lines, pos, numResources, a)
    && ReadActivity(lines, pos + a, numResources) == Failure(e)
  }

  /** A failed read of `count` activities reports the error of the first
      activity line that does not read: the lines before it are well
      formed. */
  lemma {:induction false} ReadActivitiesFailure(lines: seq<Line>, pos: nat, numResources: int, count: nat)
    requires ReadActivities(lines, pos, numResources, count).Failure?
    ensures exists a: nat :: FirstBadActivity(lines, pos, numResources, count, a, ReadActivities(lines, pos, numResources, count).error)
    decreases count
  {
    var e := ReadActivities(lines, pos, numResources, count).error;
    ReadActivitiesFailStep(lines, pos, numResources, count);
    if ReadActivity(lines, pos, numResources).Failure? {
      assert ActivityLinesAt(lines, pos, numResources, 0);
      assert FirstBadActivity(lines, pos, numResources, count, 0, e);
    } else {
      ReadActivitiesFailure(lines, pos + 1, numResources, count - 1);
      var a: nat :| FirstBadActivity(lines, pos + 1, numResources, count - 1, a, ReadActivities(lines, pos + 1, numResources, count - 1).error);
      ActivityLinesCons(lines, pos, numResources, a);
      assert pos + (a + 1) == pos + 1 + a;
      assert FirstBadActivity(lines, pos, numResources, count, a + 1, e);
    }
  }

  /** A failed read of `count > 0` activities fails with the first line's
      error, or, when that line reads, with the error of the rest. */
  lemma ReadActivitiesFailStep(lines: seq<Line>, pos: nat, numResources: int, count: nat)
    requires count > 0 && ReadActivities(lines, pos, numResources, count).Failure?
    ensures var e := ReadActivities(lines, pos, numResources, count).error;
            if ReadActivity(lines, pos, numResources).Failure? then ReadActivity(lines, pos, numResources) == Failure(e)
            else ReadActivities(lines, pos + 1, numResources, count - 1) == Failure(e)
  {
  }

  /** A line that reads in front of `a` well-formed lines makes `a + 1`
      well-formed lines. */
  lemma ActivityLinesCons(lines: seq<Line>, pos: nat, numResources: int, a: nat)
    requires ReadActivity(lines, pos, numResources).Success?
    requires ActivityLinesAt(lines, pos + 1, numResources, a)
    ensures ActivityLinesAt(lines, pos, numResources, a + 1)
  {
    ReadActivityMeaning(lines, pos, numResources);
  }

  /** Reading `count > 0` activities succeeds exactly when the first one
      reads and the rest read from the next line. */
  lemma ReadActivitiesStep(lines: seq<Line>, pos: nat, numResources: int, count: nat)
    requires count > 0
    ensures ReadActivities(lines, pos, numResources, count).Success? <==>
              ReadActivity(lines, pos, numResources).Success? && ReadActivities(lines, pos + 1, numResources, count - 1).Success?
  {
  }

  /** A project: its header, the resource-usage line (read and ignored), and
      one line per activity. A negative activity count reads no activity. */
  function ReadProject(lines: seq<Line>, pos: nat, numResources: int): (r: Result<Read<RawProject>, ReadError>)
    ensures r.Success? ==>
              && ReadHeader(lines, pos) == Success(Read(r.value.value.header, pos + 1))
              && |r.value.value.activities| == Rounds(r.value.value.header.numActivities)
              && r.value.next == pos + 2 + |r.value.value.activities|
              && r.value.next <= |lines|
  {
    var header :- ReadHeader(lines, pos);
    var usage :- NextLine(lines, header.next);
    var acts :- ReadActivities(lines, usage.next, numResources, Rounds(header.value.numActivities));
    Success(Read(RawProject(header.value, acts.value), acts.next))
  }

  /** Each activity of a project is the one its own line describes; the
      activity lines follow the header and the resource-usage line. */
  lemma ReadProjectDescribed(lines: seq<Line>, pos: nat, numResources: int)
    requires ReadProject(lines, pos, numResources).Success?
    ensures DescribedBy(lines, pos + 2, numResources, ReadProject(lines, pos, numResources).value.value.activities)
  {
    var h := ReadHeader(lines, pos).value.value;
    ReadActivitiesDescribed(lines, pos + 2, numResources, Rounds(h.numActivities));
  }

  /** A project header line: two or three integers. */
  predicate HeaderAt(lines: seq<Line>, pos: nat) {
    pos < |lines| && AllInts(lines[pos].tokens) && |lines[pos].tokens| in {2, 3}
  }

  /** The number of activity lines the header at `pos` announces. */
  function AnnouncedAt(lines: seq<Line>, pos: nat): nat
    requires HeaderAt(lines, pos)
  {
    Rounds(ParseInt(lines[pos].tokens[0]).value)
  }

  /** A project is read exactly when its header reads, some line follows it
      (the resource-usage line, whatever it holds), and the announced
      number of well-formed activity lines comes after that. */
  lemma ReadProjectSucceeds(lines: seq<Line>, pos: nat, numResources: int)
    ensures ReadProject(lines, pos, numResources).Success? <==>
              && HeaderAt(lines, pos)
              && pos + 1 < |lines|
              && ActivityLinesAt(lines, pos + 2, numResources, AnnouncedAt(lines, pos))
    ensures ReadProject(lines, pos, numResources).Success? ==>
              ReadProject(lines, pos, numResources).value.next == pos + 2 + AnnouncedAt(lines, pos)
  {
    if HeaderAt(lines, pos) {
      var h := ReadHeader(lines, pos).value.value;
      assert Rounds(h.numActivities) == AnnouncedAt(lines, pos);
      ReadActivitiesSucceeds(lines, pos + 2, numResources, AnnouncedAt(lines, pos));
    }
  }

  /** A failed project read reports the header's error; else, with no line
      left for the resource-usage line, the end of input; else the error of
      its first activity line that does not read. */
  lemma ReadProjectFailure(lines: seq<Line>, pos: nat, numResources: int)
    requires ReadProject(lines, pos, numResources).Failure?
    ensures var e := ReadProject(lines, pos, numResources).error;
            if !HeaderAt(lines, pos) then ReadHeader(lines, pos) == Failure(e)
            else if pos + 1 >= |lines| then e == EndOfInput
            else var start := pos + 2;
                 exists a: nat :: FirstBadActivity(lines, start, numResources, AnnouncedAt(lines, pos), a, e)
  {
    if HeaderAt(lines, pos) && pos + 1 < |lines| {
      var h := ReadHeader(lines, pos).value.value;
      assert Rounds(h.numActivities) == AnnouncedAt(lines, pos);
      ReadActivitiesFailure(lines, pos + 2, numResources, AnnouncedAt(lines, pos));
    }
  }

  /** The number of lines the projects `ps` occupy. */
  function LinesOf(ps: seq<RawProject>): nat {
    if ps == [] then 0 else LinesOf(ps[..|ps| - 1]) + 2 + |ps[|ps| - 1].activities|
  }

  lemma LinesOfCons(p: RawProject, ps: seq<RawProject>)
    ensures LinesOf([p] + ps) == 2 + |p.activities| + LinesOf(ps)
    decreases |ps|
  {
    if ps != [] {
      assert ([p] + ps)[..|ps|] == [p] + ps[..|ps| - 1];
      LinesOfCons(p, ps[..|ps| - 1]);
    }
  }

  /** Every project holds as many activities as its header's count, or none
      when the count is negative. */
  predicate HeaderCounts(ps: seq<RawProject>) {
    forall k :: 0 <= k < |ps| ==> |ps[k].activities| == Rounds(ps[k].header.numActivities)
  }

  lemma HeaderCountsCons(p: RawProject, ps: seq<RawProject>)
    requires |p.activities| == Rounds(p.header.numActivities) && HeaderCounts(ps)
    ensures HeaderCounts([p] + ps)
  {
    assert forall k :: 1 <= k <= |ps| ==> ([p] + ps)[k] == ps[k - 1];
  }

  /** `count` projects, one after the other. */
  function ReadProjects(lines: seq<Line>, pos: nat, numResources: int, count: nat): (r: Result<Read<seq<RawProject>>, ReadError>)
    ensures r.Success? ==>
              && |r.value.value| == count
              && r.value.next == pos + LinesOf(r.value.value)
              && (count > 0 ==> r.value.next <= |lines|)
              && HeaderCounts(r.value.value)
    decreases count
  {
    if count == 0 then Success(Read([], pos))
    else
      var first :- ReadProject(lines, pos, numResources);
      var rest :- ReadProjects(lines, first.next, numResources, count - 1);
      var ps := [first.value] + rest.value;
      assert LinesOf(ps) == 2 + |first.value.activities| + LinesOf(rest.value) by {
        LinesOfCons(first.value, rest.value);
      }
      HeaderCountsCons(first.value, rest.value);
      Success(Read(ps, rest.next))
  }

  /** A successful read of `count > 0` projects is the first project
      followed by the rest. */
  lemma ReadProjectsSplit(lines: seq<Line>, pos: nat, numResources: int, count: nat)
    requires ReadProjects(lines, pos, numResources, count).Success? && count > 0
    ensures var first := ReadProject(lines, pos, numResources);
            && first.Success?
            && var rest := ReadProjects(lines, first.value.next, numResources, count - 1);
               && rest.Success?
               && ReadProjects(lines, pos, numResources, count).value.value == [first.value.value] + rest.value.value
  {
  }

  /** `count` projects laid out from line `pos` on: each a header line, a
      line of any content, and the announced number of well-formed activity
      lines. */
  predicate ProjectsAt(lines: seq<Line>, pos: nat, numResources: int, count: nat)
    decreases count
  {
    count == 0 ||
    (&& HeaderAt(lines, pos)
     && pos + 1 < |lines|
     && ActivityLinesAt(lines, pos + 2, numResources, AnnouncedAt(lines, pos))
     && ProjectsAt(lines, pos + 2 + AnnouncedAt(lines, pos), numResources, count - 1))
  }

  /** The projects are read exactly when the lines are laid out as
      `count` projects. */
  lemma ReadProjectsSucceeds(lines: seq<Line>, pos: nat, numResources: int, count: nat)
    ensures ReadProjects(lines, pos, numResources, count).Success? <==> ProjectsAt(lines, pos, numResources, count)
  {
    if ReadProjects(lines, pos, numResources, count).Success? {
      ReadProjectsLaidOut(lines, pos, numResources, count);
    }
    if ProjectsAt(lines, pos, numResources, count) {
      LaidOutProjectsRead(lines, pos, numResources, count);
    }
  }

  /** Projects that read are laid out as `ProjectsAt` says. */
  lemma {:induction false} ReadProjectsLaidOut(lines: seq<Line>, pos: nat, numResources: int, count: nat)
    requires ReadProjects(lines, pos, numResources, count).Success?
    ensures ProjectsAt(lines, pos, numResources, count)
    decreases count
  {
    if count > 0 {
      ReadProjectsSplit(lines, pos, numResources, count);
      ReadProjectSucceeds(lines, pos, numResources);
      var next := ReadProject(lines, pos, numResources).value.next;
      ReadProjectsLaidOut(lines, next, numResources, count - 1);
    }
  }

  /** Projects laid out as `ProjectsAt` says are read. */
  lemma {:induction false} LaidOutProjectsRead(lines: seq<Line>, pos: nat, numResources: int, count: nat)
    requires ProjectsAt(lines, pos, numResources, count)
    ensures ReadProjects(lines, pos, numResources, count).Success?
    decreases count
  {
    if count > 0 {
      var next := pos + 2 + AnnouncedAt(lines, pos);
      ReadProjectSucceeds(lines, pos, numResources);
      LaidOutProjectsRead(lines, next, numResources, count - 1);
      ReadProjectsNext(lines, pos, numResources, count, next);
    }
  }

  /** When the first project reads up to `next` and the rest read from
      there, all `count` projects read. */
  lemma ReadProjectsNext(lines: seq<Line>, pos: nat, numResources: int, count: nat, next: nat)
    requires count > 0
    requires ReadProject(lines, pos, numResources).Success? && ReadProject(lines, pos, numResources).value.next == next
    requires ReadProjects(lines, next, numResources, count - 1).Success?
    ensures ReadProjects(lines, pos, numResources, count).Success?
  {
  }

  /** The line after `count` projects laid out from `pos`. */
  function ProjectsEnd(lines: seq<Line>, pos: nat, numResources: int, count: nat): nat
    requires ProjectsAt(lines, pos, numResources, count)
    decreases count
  {
    if count == 0 then pos else ProjectsEnd(lines, pos + 2 + AnnouncedAt(lines, pos), numResources, count - 1)
  }

  /** A failed read of `count > 0` projects fails with the first project's
      error, or, when that project reads, with the error of the rest. */
  lemma ReadProjectsFailStep(lines: seq<Line>, pos: nat, numResources: int, count: nat)
    requires count > 0 && ReadProjects(lines, pos, numResources, count).Failure?
    ensures var e := ReadProjects(lines, pos, numResources, count).error;
            var first := ReadProject(lines, pos, numResources);
            if first.Failure? then first.error == e
            else ReadProjects(lines, first.value.next, numResources, count - 1) == Failure(e)
  {
  }

  /** A failed read of `count` projects reports the error of the first
      project that does not read: the projects before it are laid out as
      `ProjectsAt` says. */
  lemma {:induction false} ReadProjectsFailure(lines: seq<Line>, pos: nat, numResources: int, count: nat)
    requires ReadProjects(lines, pos, numResources, count).Failure?
    ensures exists q :: 0 <= q < count && ProjectsAt(lines, pos, numResources, q) &&
              ReadProject(lines, ProjectsEnd(lines, pos, numResources, q), numResources) ==
                Failure(ReadProjects(lines, pos, numResources, count).error)
    decreases count
  {
    var e := ReadProjects(lines, pos, numResources, count).error;
    ReadProjectsFailStep(lines, pos, numResources, count);
    var first := ReadProject(lines, pos, numResources);
    if first.Failure? {
      assert ProjectsAt(lines, pos, numResources, 0) && ProjectsEnd(lines, pos, numResources, 0) == pos;
    } else {
      ReadProjectSucceeds(lines, pos, numResources);
      var next := first.value.next;
      ReadProjectsFailure(lines, next, numResources, count - 1);
      var q :| 0 <= q < count - 1 && ProjectsAt(lines, next, numResources, q) &&
                ReadProject(lines, ProjectsEnd(lines, next, numResources, q), numResources) == Failure(e);
      ProjectsAtCons(lines, pos, numResources, q, next);
    }
  }

  /** A laid-out project in front of `q` laid-out projects makes `q + 1`,
      which end where the `q` do. */
  lemma ProjectsAtCons(lines: seq<Line>, pos: nat, numResources: int, q: nat, next: nat)
    requires HeaderAt(lines, pos) && pos + 1 < |lines|
    requires ActivityLinesAt(lines, pos + 2, numResources, AnnouncedAt(lines, pos))
    requires next == pos + 2 + AnnouncedAt(lines, pos) && ProjectsAt(lines, next, numResources, q)
    ensures ProjectsAt(lines, pos, numResources, q + 1)
    ensures ProjectsEnd(lines, pos, numResources, q + 1) == ProjectsEnd(lines, next, numResources, q)
  {
  }

  /** The lines of the first `q + 1` projects are those of the first
      project and of the `q` projects after it. */
  lemma LinesOfFront(p: RawProject, rest: seq<RawProject>, q: nat)
    requires q <= |rest|
    ensures LinesOf(([p] + rest)[..q + 1]) == 2 + |p.activities| + LinesOf(rest[..q])
  {
    assert ([p] + rest)[..q + 1] == [p] + rest[..q];
    LinesOfCons(p, rest[..q]);
  }

  /** The whole file: the project count, the resource count, the capacities
      line, and the projects. Lines after the last project are never read. */
  function ReadFile(lines: seq<Line>): (r: Result<Read<RawFile>, ReadError>)
    ensures r.Success? ==>
              var f := r.value.value;
              && 3 <= |lines|
              && ParseInt(lines[0].text) == Some(f.numProjects)
              && ParseInt(lines[1].text) == Some(f.numResources)
              && |f.capacities| == |lines[2].tokens|
              && (forall c :: 0 <= c < |f.capacities| ==> ParseInt(lines[2].tokens[c]) == Some(f.capacities[c]))
              && |f.projects| == Rounds(f.numProjects)
              && HeaderCounts(f.projects)
              && r.value.next == 3 + LinesOf(f.projects) <= |lines|
  {
    var numProjects :- ReadInt(lines, 0);
    var numResources :- ReadInt(lines, numProjects.next);
    var capacities :- ReadInts(lines, numResources.next);
    var projects :- ReadProjects(lines, capacities.next, numResources.value, Rounds(numProjects.value));
    Success(Read(RawFile(numProjects.value, numResources.value, capacities.value, projects.value), projects.next))
  }

  /** The lines of a file that reads: an integer line, another, a line of
      integers, and the first line's count of projects after them. */
  predicate WellFormedFile(lines: seq<Line>) {
    && 3 <= |lines|
    && ParseInt(lines[0].text).Some?
    && ParseInt(lines[1].text).Some?
    && AllInts(lines[2].tokens)
    && ProjectsAt(lines, 3, ParseInt(lines[1].text).value, Rounds(ParseInt(lines[0].text).value))
  }

  /** A file reads exactly when its lines are well formed. */
  lemma ReadFileSucceeds(lines: seq<Line>)
    ensures ReadFile(lines).Success? <==> WellFormedFile(lines)
  {
    if 3 <= |lines| && ParseInt(lines[0].text).Some? && ParseInt(lines[1].text).Some? {
      ReadProjectsSucceeds(lines, 3, ParseInt(lines[1].text).value, Rounds(ParseInt(lines[0].text).value));
    }
  }

  /** A file that does not read reports, in this order: the error of the
      project-count line, of the resource-count line, of the capacities
      line, or of the first project that does not read. */
  lemma ReadFileFailure(lines: seq<Line>)
    requires ReadFile(lines).Failure?
    ensures var e := ReadFile(lines).error;
            if ReadInt(lines, 0).Failure? then e == ReadInt(lines, 0).error
            else if ReadInt(lines, 1).Failure? then e == ReadInt(lines, 1).error
            else if ReadInts(lines, 2).Failure? then e == ReadInts(lines, 2).error
            else ReadProjects(lines, 3, ParseInt(lines[1].text).value, Rounds(ParseInt(lines[0].text).value)) == Failure(e)
  {
  }

  /** The projects of a file are what reading the project count's worth
      of projects from the fourth line gives. */
  lemma ReadFileProjects(lines: seq<Line>)
    requires ReadFile(lines).Success?
    ensures var f := ReadFile(lines).value.value;
            var projects := ReadProjects(lines, 3, f.numResources, Rounds(f.numProjects));
            projects.Success? && f.projects == projects.value.value
  {
  }

  /** The `b`-th activity of the `q`-th project (both counted from 0) of
      the file `f` that `lines` reads to is what line `line` parses to: the
      line after its project's header, its resource-usage line and the
      project's earlier activity lines. */
  lemma ReadFileActivity(lines: seq<Line>, f: RawFile, q: nat, b: nat, line: nat)
    requires ReadFile(lines).Success? && ReadFile(lines).value.value == f
    requires q < |f.projects| && b < |f.projects[q].activities|
    requires line == 3 + LinesOf(f.projects[..q]) + 2 + b
    ensures line < |lines|
    ensures ParseActivity(lines[line].tokens, f.numResources) == Success(f.projects[q].activities[b])
  {
    ReadFileProjects(lines);
    ReadProjectsDescribes(lines, f.numResources, Rounds(f.numProjects), f.projects, q, b, line);
  }

  /** The `b`-th activity of the `q`-th project (both counted from 0) of
      the projects read from the fourth line on is what the line after its
      project's header, its resource-usage line and the project's earlier
      activity lines parses to, and so is described by that line. */
  lemma ReadProjectsDescribes(
    lines: seq<Line>, numResources: int, count: nat, ps: seq<RawProject>, q: nat, b: nat, line: nat)
    requires ReadProjects(lines, 3, numResources, count).Success?
    requires ps == ReadProjects(lines, 3, numResources, count).value.value
    requires q < |ps| && b < |ps[q].activities|
    requires line == 3 + LinesOf(ps[..q]) + 2 + b
    ensures line < |lines|
    ensures ParseActivity(lines[line].tokens, numResources) == Success(ps[q].activities[b])
    ensures Describes(lines[line].tokens, numResources, ps[q].activities[b])
  {
    ReadProjectsActivity(lines, 3, numResources, count, ps, q, b, line);
    ParseActivityMeaning(lines[line].tokens, numResources);
  }

  /** The `b`-th activity of the `q`-th project read from `pos` is what
      line `line` parses to: the line after the project's header, its
      resource-usage line and its earlier activity lines, which come right
      after the lines of the projects before it. */
  lemma {:induction false} ReadProjectsActivity(
    lines: seq<Line>, pos: nat, numResources: int, count: nat, ps: seq<RawProject>, q: nat, b: nat, line: nat)
    requires ReadProjects(lines, pos, numResources, count).Success?
    requires ps == ReadProjects(lines, pos, numResources, count).value.value
    requires q < |ps| && b < |ps[q].activities|
    requires line == pos + LinesOf(ps[..q]) + 2 + b
    ensures line < |lines|
    ensures ParseActivity(lines[line].tokens, numResources) == Success(ps[q].activities[b])
    decreases count
  {
    ReadProjectsSplit(lines, pos, numResources, count);
    var first := ReadProject(lines, pos, numResources).value;
    var rest := ReadProjects(lines, first.next, numResources, count - 1).value.value;
    if q == 0 {
      assert ps[..0] == [];
      ReadProjectDescribed(lines, pos, numResources);
    } else {
      LinesOfFront(first.value, rest, q - 1);
      assert ps[q] == rest[q - 1];
      ReadProjectsActivity(lines, first.next, numResources, count - 1, rest, q - 1, b, line);
    }
  }

  /** The header of the `q`-th project read from `pos` is what line `line`
      reads to: the line right after the lines of the projects before it. */
  lemma {:induction false} ReadProjectsHeader(
    lines: seq<Line>, pos: nat, numResources: int, count: nat, ps: seq<RawProject>, q: nat, line: nat)
    requires ReadProjects(lines, pos, numResources, count).Success?
    requires ps == ReadProjects(lines, pos, numResources, count).value.value
    requires q < |ps|
    requires line == pos + LinesOf(ps[..q])
    ensures ReadHeader(lines, line) == Success(Read(ps[q].header, line + 1))
    decreases count
  {
    ReadProjectsSplit(lines, pos, numResources, count);
    var first := ReadProject(lines, pos, numResources).value;
    var rest := ReadProjects(lines, first.next, numResources, count - 1).value.value;
    if q == 0 {
      assert ps[..0] == [];
    } else {
      LinesOfFront(first.value, rest, q - 1);
      assert ps[q] == rest[q - 1];
      ReadProjectsHeader(lines, first.next, numResources, count - 1, rest, q - 1, line);
    }
  }

  /** The header of the `q`-th project (counted from 0) of the file `f` that
      `lines` reads to is what line `line` reads to: the line after the
      three opening lines and the lines of the projects before it. */
  lemma ReadFileHeader(lines: seq<Line>, f: RawFile, q: nat, line: nat)
    requires ReadFile(lines).Success? && ReadFile(lines).value.value == f
    requires q < |f.projects|
    requires line == 3 + LinesOf(f.projects[..q])
    ensures ReadHeader(lines, line) == Success(Read(f.projects[q].header, line + 1))
  {
    ReadFileProjects(lines);
    ReadProjectsHeader(lines, 3, f.numResources, Rounds(f.numProjects), f.projects, q, line);
  }

  // A prefix of the lines reads exactly what the full lines read, as long as
  // it holds every line the read consumed; otherwise the read runs out of
  // lines. The lemmas below establish this reader by reader.

  lemma OneLinePrefix(lines: seq<Line>, pos: nat, k: nat)
    requires pos <= k <= |lines|
    ensures NextLine(lines[..k], pos) == if pos < k then NextLine(lines, pos) else Failure(EndOfInput)
  {
  }

  lemma ReadActivityPrefix(lines: seq<Line>, pos: nat, numResources: int, k: nat)
    requires pos <= k <= |lines|
    ensures ReadActivity(lines[..k], pos, numResources) ==
              if pos < k then ReadActivity(lines, pos, numResources) else Failure(EndOfInput)
  {
    assert pos < k ==> lines[..k][pos] == lines[pos];
  }

  lemma {:induction false} ReadActivitiesPrefix(lines: seq<Line>, pos: nat, numResources: int, count: nat, k: nat)
    requires pos <= k <= |lines|
    requires ReadActivities(lines, pos, numResources, count).Success?
    ensures ReadActivities(lines[..k], pos, numResources, count) ==
              if ReadActivities(lines, pos, numResources, count).value.next <= k
              then ReadActivities(lines, pos, numResources, count)
              else Failure(EndOfInput)
  {
    if pos + count <= k {
      ReadActivitiesLongPrefix(lines, pos, numResources, count, k);
    } else {
      ReadActivitiesShortPrefix(lines, pos, numResources, count, k);
    }
  }

  lemma {:induction false} ReadActivitiesLongPrefix(lines: seq<Line>, pos: nat, numResources: int, count: nat, k: nat)
    requires pos + count <= k <= |lines|
    ensures ReadActivities(lines[..k], pos, numResources, count) == ReadActivities(lines, pos, numResources, count)
    decreases count
  {
    if count > 0 {
      ReadActivityPrefix(lines, pos, numResources, k);
      ReadActivitiesLongPrefix(lines, pos + 1, numResources, count - 1, k);
    }
  }

  lemma {:induction false} ReadActivitiesShortPrefix(lines: seq<Line>, pos: nat, numResources: int, count: nat, k: nat)
    requires pos <= k < pos + count && k <= |lines|
    requires ReadActivities(lines, pos, numResources, count).Success?
    ensures ReadActivities(lines[..k], pos, numResources, count) == Failure(EndOfInput)
    decreases count
  {
    ReadActivityPrefix(lines, pos, numResources, k);
    if pos < k {
      assert ReadActivity(lines, pos, numResources).Success?;
      ReadActivitiesShortPrefix(lines, pos + 1, numResources, count - 1, k);
    }
  }

  lemma ReadProjectPrefix(lines: seq<Line>, pos: nat, numResources: int, k: nat)
    requires pos <= k <= |lines|
    requires ReadProject(lines, pos, numResources).Success?
    ensures ReadProject(lines[..k], pos, numResources) ==
              if ReadProject(lines, pos, numResources).value.next <= k
              then ReadProject(lines, pos, numResources)
              else Failure(EndOfInput)
  {
    OneLinePrefix(lines, pos, k);
    if pos < k {
      OneLinePrefix(lines, pos + 1, k);
      if pos + 1 < k {
        var h := ReadHeader(lines, pos).value.value;
        ReadActivitiesPrefix(lines, pos + 2, numResources, Rounds(h.numActivities), k);
      }
    }
  }

  lemma {:induction false} ReadProjectsPrefix(lines: seq<Line>, pos: nat, numResources: int, count: nat, k: nat)
    requires pos <= k <= |lines|
    requires ReadProjects(lines, pos, numResources, count).Success?
    ensures ReadProjects(lines[..k], pos, numResources, count) ==
              if ReadProjects(lines, pos, numResources, count).value.next <= k
              then ReadProjects(lines, pos, numResources, count)
              else Failure(EndOfInput)
    decreases count
  {
    if count > 0 {
      ReadProjectPrefix(lines, pos, numResources, k);
      var first := ReadProject(lines, pos, numResources).value;
      if first.next <= k {
        ReadProjectsPrefix(lines, first.next, numResources, count - 1, k);
      }
    }
  }

  /** Truncated input is refused: a prefix of the lines either holds every
      line the full read consumed, and then reads the same file, or it fails
      with `EndOfInput`; it never yields a partial file. */
  lemma ReadFilePrefix(lines: seq<Line>, k: nat)
    requires k <= |lines|
    requires ReadFile(lines).Success?
    ensures ReadFile(lines[..k]) ==
              if ReadFile(lines).value.next <= k then ReadFile(lines) else Failure(EndOfInput)
  {
    OneLinePrefix(lines, 0, k);
    if 1 <= k {
      OneLinePrefix(lines, 1, k);
    }
    if 2 <= k {
      OneLinePrefix(lines, 2, k);
    }
    if 3 <= k {
      var np := ReadInt(lines, 0).value.value;
      var nr := ReadInt(lines, 1).value.value;
      ReadProjectsPrefix(lines, 3, nr, Rounds(np), k);
    }
  }
}
