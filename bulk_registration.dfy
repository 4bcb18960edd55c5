/** The bulk-registration form of the SFT number generator: a block of text,
    one application per line in the form `AppName | Description`, is turned
    into the list of applications handed to the allocator, and the
    allocator's per-application results are tallied. */
module BulkRegistration {
  import opened PyStr
  import opened Wrappers

  /** One entry of the list handed to the allocator. */
  datatype Application = Application(name: string, description: string)

  /** Separates the name from the description within a line. */
  const Separator: char := '|'

  /** Separates the lines of the input block. */
  const Newline: char := '\n'

  /** What every entry handed to the allocator looks like: a non-empty name
      with no surrounding whitespace and no separator in it, and a
      description with no surrounding whitespace. */
  predicate WellFormed(app: Application) {
    app.name != [] && IsStripped(app.name) && Separator !in app.name &&
    IsStripped(app.description)
  }

  /** One line of the input block: the name is the stripped text before the
      first separator and the description the stripped text after it; a
      line without a separator is all name and has an empty description.
      A line whose name strips to nothing yields no entry. */
  function ParseLine(line: string): (entry: Option<Application>)
    ensures entry.Some? ==> WellFormed(entry.value)
  {
    var (name, description) :=
      if Separator in line then
        var parts := SplitOnce(line, Separator);
        StripExcludes(parts[0], Separator);
        (Strip(parts[0]), if |parts| > 1 then Strip(parts[1]) else "")
      else (StripExcludes(line, Separator); (Strip(line), ""));
    if name != [] then Some(Application(name, description)) else None
  }

  /** A line with a separator: everything before the first separator is the
      name, everything after it, later separators included, the
      description. */
  lemma ParseLineWithSeparator(before: string, after: string)
    requires Separator !in before
    ensures ParseLine(before + [Separator] + after) ==
      if Strip(before) == [] then None else Some(Application(Strip(before), Strip(after)))
  {
    SplitOnceUnique(before, Separator, after);
  }

  /** A line without a separator is a name with an empty description. */
  lemma ParseLineWithoutSeparator(line: string)
    requires Separator !in line
    ensures ParseLine(line) ==
      if Strip(line) == [] then None else Some(Application(Strip(line), ""))
  {
  }

  /** The values of the present entries, in order. */
  function Present<T>(opts: seq<Option<T>>): (vals: seq<T>)
    ensures |vals| <= |opts|
  {
    if opts == [] then []
    else
      var init := Present(opts[..|opts| - 1]);
      match opts[|opts| - 1]
      case Some(v) => init + [v]
      case None => init
  }

  /** The positions of the present entries: increasing, and holding a
      position exactly when the entry there is present. */
  function PresentAt<T>(opts: seq<Option<T>>): (kept: seq<nat>)
    ensures forall k :: 0 <= k < |kept| ==> kept[k] < |opts|
    ensures forall k1, k2 :: 0 <= k1 < k2 < |kept| ==> kept[k1] < kept[k2]
    ensures forall i :: 0 <= i < |opts| ==> (i in kept <==> opts[i].Some?)
  {
    if opts == [] then []
    else
      var n := |opts| - 1;
      var init := PresentAt(opts[..n]);
      assert forall i :: 0 <= i < n ==> opts[i] == opts[..n][i];
      if opts[n].Some? then init + [n] else init
  }

  /** The k-th present value sits at the k-th present position. */
  lemma {:induction false} PresentOrder<T>(opts: seq<Option<T>>)
    ensures |PresentAt(opts)| == |Present(opts)|
    ensures forall k :: 0 <= k < |PresentAt(opts)| ==> opts[PresentAt(opts)[k]] == Some(Present(opts)[k])
  {
    if opts != [] {
      var init, n := opts[..|opts| - 1], |opts| - 1;
      PresentOrder(init);
      assert forall i :: 0 <= i < n ==> opts[i] == init[i];
    }
  }

  /** The per-line results of a list of lines. */
  function LineEntries(lines: seq<string>): (entries: seq<Option<Application>>)
    ensures |entries| == |lines|
  {
    seq(|lines|, i requires 0 <= i < |lines| => ParseLine(lines[i]))
  }

  /** The entries of a list of lines, in line order, dropping the lines
      that yield none. */
  function ParseLines(lines: seq<string>): (apps: seq<Application>)
    ensures |apps| <= |lines|
    ensures forall k :: 0 <= k < |apps| ==> WellFormed(apps[k])
  {
    var entries := LineEntries(lines);
    PresentOrder(entries);
    assert forall k :: 0 <= k < |Present(entries)| ==>
      entries[PresentAt(entries)[k]] == Some(Present(entries)[k]);
    Present(entries)
  }

  /** The lines that yield an entry, by index. */
  function KeptLines(lines: seq<string>): seq<nat> {
    PresentAt(LineEntries(lines))
  }

  /** The entries are exactly the kept lines' entries, in line order: the
      k-th entry comes from line KeptLines(lines)[k], those indices
      increase, and a line is kept exactly when its name is not empty. */
  lemma ParseLinesOrder(lines: seq<string>)
    ensures |KeptLines(lines)| == |ParseLines(lines)|
    ensures forall k :: 0 <= k < |KeptLines(lines)| ==>
      KeptLines(lines)[k] < |lines| &&
      ParseLine(lines[KeptLines(lines)[k]]) == Some(ParseLines(lines)[k])
    ensures forall k1, k2 :: 0 <= k1 < k2 < |KeptLines(lines)| ==>
      KeptLines(lines)[k1] < KeptLines(lines)[k2]
    ensures forall i :: 0 <= i < |lines| ==> (i in KeptLines(lines) <==> ParseLine(lines[i]).Some?)
  {
    PresentOrder(LineEntries(lines));
  }

  /** Parsing one more line appends that line's entry, if any. */
  lemma ParseLinesSnoc(lines: seq<string>, i: nat)
    requires i < |lines|
    ensures ParseLines(lines[..i + 1]) ==
      ParseLines(lines[..i]) + if ParseLine(lines[i]).Some? then [ParseLine(lines[i]).value] else []
  {
    var entries := LineEntries(lines[..i + 1]);
    assert entries[..i] == LineEntries(lines[..i]);
    assert entries[i] == ParseLine(lines[i]);
  }

  /** The lines of the input block: the whole input stripped, then split at
      every newline. */
  function InputLines(input: string): (lines: seq<string>)
    ensures |lines| >= 1
    ensures forall i :: 0 <= i < |lines| ==> Newline !in lines[i]
  {
    SplitPiecesFree(Strip(input), Newline);
    Split(Strip(input), Newline)
  }

  /** The list of applications the form submits for a given input. */
  function BulkApplications(input: string): (apps: seq<Application>)
    ensures |apps| <= |InputLines(input)|
    ensures forall k :: 0 <= k < |apps| ==> WellFormed(apps[k])
  {
    ParseLines(InputLines(input))
  }

  /** The parsing loop of the bulk form: walks the lines in order and
      appends an entry for every line whose name is not empty. */
  method ParseBulk(input: string) returns (applications: seq<Application>)
    ensures applications == BulkApplications(input)
    ensures forall k :: 0 <= k < |applications| ==> WellFormed(applications[k])
    ensures AllSpace(input) ==> applications == []
  {
    var lines := Split(Strip(input), Newline);
    applications := [];
    for i := 0 to |lines|
      invariant applications == ParseLines(lines[..i])
    {
      var line := lines[i];
      var name, description;
      if Separator in line {
        var parts := SplitOnce(line, Separator);
        name := Strip(parts[0]);
        description := if |parts| > 1 then Strip(parts[1]) else "";
      } else {
        name := Strip(line);
        description := "";
      }
      assert ParseLine(line) == if name != [] then Some(Application(name, description)) else None;
      ParseLinesSnoc(lines, i);
      if name != [] {
        applications := applications + [Application(name, description)];
      }
    }
    assert lines[..|lines|] == lines;
  }

  /** A line of the stripped input never yields an entry whose name or
      description spans a line break. */
  lemma BulkApplicationsSingleLine(input: string)
    ensures forall k :: 0 <= k < |BulkApplications(input)| ==>
      Newline !in BulkApplications(input)[k].name &&
      Newline !in BulkApplications(input)[k].description
  {
    var lines := InputLines(input);
    ParseLinesOrder(lines);
    forall k | 0 <= k < |BulkApplications(input)|
      ensures Newline !in BulkApplications(input)[k].name
      ensures Newline !in BulkApplications(input)[k].description
    {
      var line := lines[KeptLines(lines)[k]];
      assert Newline !in line;
      if Separator in line {
        var parts := SplitOnce(line, Separator);
        assert Newline !in parts[0] && Newline !in parts[1];
      }
    }
  }

  /** Blank input, or whitespace around the input, makes no difference:
      the whole block is stripped before it is split into lines. */
  lemma BulkApplicationsPadding(a: string, input: string, b: string)
    requires AllSpace(a) && AllSpace(b)
    ensures BulkApplications(a + input + b) == BulkApplications(input)
  {
    StripPadding(a, input, b);
  }

  /** Input that is empty or all whitespace yields no entries. */
  lemma BulkApplicationsBlank(input: string)
    requires AllSpace(input)
    ensures BulkApplications(input) == []
  {
    assert InputLines(input) == [[]];
    assert ParseLines([[]]) == ParseLines([]);
  }

  /** The lines of a non-empty stripped text, which is what the form splits
      when the input is not blank (see Strip): the first line is non-empty
      and does not begin with whitespace, the last line is non-empty and
      does not end with whitespace, so leading and trailing blank lines of
      the input never reach the per-line parse. */
  lemma StrippedLinesNotBlank(s: string)
    requires s != [] && IsStripped(s)
    ensures var lines := Split(s, Newline);
      var first, last := lines[0], lines[|lines| - 1];
      first != [] && !IsSpace(first[0]) && last != [] && !IsSpace(last[|last| - 1])
  {
    assert s[0] != Newline && s[|s| - 1] != Newline by {
      assert IsSpace(Newline);
    }
    SplitFirstChar(s, Newline);
    SplitLastChar(s, Newline);
  }

  /** A line of spaces is dropped. */
  lemma BlankLineDropped()
    ensures ParseLine("   ") == None
  {
    assert AllSpace("   ");
  }

  /** A line with nothing before the separator is dropped, whatever its
      description. */
  lemma EmptyNameDropped()
    ensures ParseLine("|x") == None
  {
    assert "|x" == "" + [Separator] + "x";
    ParseLineWithSeparator("", "x");
  }

  /** A line with only whitespace before the separator is dropped, whatever
      its description. */
  lemma BlankNameDropped()
    ensures ParseLine(" | desc") == None
  {
    assert AllSpace(" ");
    assert " | desc" == " " + [Separator] + " desc";
    ParseLineWithSeparator(" ", " desc");
  }

  /** Which branch of the bulk form is taken for an input. */
  datatype BulkOutcome =
    | NothingEntered
    | NoValidApplications
    | Register(applications: seq<Application>)

  /** The bulk form's decision: a blank input asks for at least one
      application, an input whose every line is dropped reports that no
      valid application was found, and otherwise the parsed list goes to
      the allocator. */
  method HandleBulkInput(input: string) returns (outcome: BulkOutcome)
    ensures outcome == NothingEntered <==> AllSpace(input)
    ensures outcome == NoValidApplications <==> !AllSpace(input) && BulkApplications(input) == []
    ensures outcome.Register? ==>
      outcome.applications == BulkApplications(input) && outcome.applications != []
  {
    if Strip(input) != [] {
      var applications := ParseBulk(input);
      if applications != [] {
        outcome := Register(applications);
      } else {
        outcome := NoValidApplications;
      }
    } else {
      outcome := NothingEntered;
    }
  }

  /** One result the allocator reports for a submitted application. */
  datatype RegistrationResult =
    RegistrationResult(application: string, sftNumber: Option<string>, success: bool)

  /** How many results report success. */
  function SuccessCount(results: seq<RegistrationResult>): (n: nat)
    ensures n <= |results|
    ensures n == |results| <==> forall k :: 0 <= k < |results| ==> results[k].success
    ensures n == 0 <==> forall k :: 0 <= k < |results| ==> !results[k].success
  {
    if results == [] then 0
    else (if results[0].success then 1 else 0) + SuccessCount(results[1..])
  }

  /** The positions of the results that report success. */
  function Successes(results: seq<RegistrationResult>): set<nat> {
    set k: nat | k < |results| && results[k].success
  }

  /** One more result adds its position to the successes when it
      succeeded. */
  lemma SuccessesSnoc(results: seq<RegistrationResult>, r: RegistrationResult)
    ensures Successes(results + [r]) ==
      Successes(results) + if r.success then {|results|} else {}
  {
    var all := results + [r];
    assert forall k :: 0 <= k < |results| ==> all[k] == results[k];
  }

  /** The tally is the number of results that report success. */
  lemma {:induction false} SuccessCountExact(results: seq<RegistrationResult>)
    ensures SuccessCount(results) == |Successes(results)|
    decreases |results|
  {
    if results == [] {
      assert Successes(results) == {};
    } else {
      var n := |results| - 1;
      var init, r := results[..n], results[n];
      assert init + [r] == results;
      SuccessCountExact(init);
      SuccessCountAppend(init, [r]);
      assert [r][1..] == [];
      SuccessesSnoc(init, r);
    }
  }

  /** The tally of a concatenation is the sum of the tallies. */
  lemma {:induction false} SuccessCountAppend(a: seq<RegistrationResult>, b: seq<RegistrationResult>)
    ensures SuccessCount(a + b) == SuccessCount(a) + SuccessCount(b)
  {
    if a != [] {
      assert (a + b)[1..] == a[1..] + b;
      SuccessCountAppend(a[1..], b);
    } else {
      assert a + b == b;
    }
  }
}
