/** `run_mcdc_analysis` and the input loop of main.py: which outcome one
    analysis reaches, and how each line of input is handled. The pair finder
    and the test-set selector of the MC/DC engine are parameters. */
module McdcAnalysis {
  import opened Wrappers
  import opened ExpressionParser
  import opened TruthTableGenerator

  /** A pair of row indices showing the independent effect of a condition. */
  type Pair = (int, int)

  /** The result of `find_mcdc_pairs`: a `dict` from condition names to lists of pairs. */
  type PairsMap = map<string, seq<Pair>>

  /** The exceptions the `try` of `run_mcdc_analysis` tells apart. */
  datatype Exception = ValueError | OtherError

  /** A call into the engine: it returns a value or raises. */
  datatype Call<T> = Returned(value: T) | Threw(error: Exception)

  /** The result of `select_mcdc_test_set`: the selected row indices and the
      coverage map, `None` when no complete test set was found. */
  datatype Selection = Selection(selected: set<int>, coverage: Option<map<string, Pair>>)

  /** `find_mcdc_pairs(truth_table, conditions)`. */
  type PairFinder = (seq<Row>, seq<string>) -> Call<PairsMap>

  /** `select_mcdc_test_set(mcdc_pairs, conditions, table_size)`. */
  type TestSelector = (PairsMap, seq<string>, nat) -> Call<Selection>

  /** Where one analysis stops, with what it reports. */
  datatype Outcome =
    | InputError                                     // a `ValueError`, e.g. no conditions
    | NoTruthTable                                   // the table could not be generated
    | NoPairs(uncoverable: Option<seq<string>>)      // no condition has a pair
    | MissingPairs(lacking: seq<string>)             // some condition has no pair
    | Covered(selected: set<int>, coverage: map<string, Pair>)
    | Incomplete(partial: Option<set<int>>)          // the selector found no complete set
    | UnexpectedError                                // any other exception

  function ErrorOutcome(e: Exception): (r: Outcome)
    ensures r == InputError <==> e == ValueError
    ensures r == UnexpectedError <==> e == OtherError
  {
    match e
    case ValueError => InputError
    case OtherError => UnexpectedError
  }

  // ---------------------------------------------------------------------------
  // The tests on the pairs map

  /** `mcdc_pairs.get(condition, [])`: a missing key gives no pairs. */
  function PairsOf(pairs: PairsMap, condition: string): seq<Pair>
  {
    if condition in pairs then pairs[condition] else []
  }

  /** `c in mcdc_pairs and mcdc_pairs[c]`. */
  predicate Achievable(pairs: PairsMap, condition: string)
  {
    condition in pairs && |pairs[condition]| > 0
  }

  /** `any(mcdc_pairs.values())`: some entry, for any key, is a non-empty list. */
  predicate AnyPairs(pairs: PairsMap)
  {
    exists c :: c in pairs && |pairs[c]| > 0
  }

  /** Every condition has a non-empty list of pairs. */
  predicate EveryConditionHasPairs(conditions: seq<string>, pairs: PairsMap)
  {
    forall c :: c in conditions ==> |PairsOf(pairs, c)| > 0
  }

  /** The conditions without pairs, in the order of `conditions`. */
  function Lacking(conditions: seq<string>, pairs: PairsMap): (r: seq<string>)
    ensures forall c :: c in r <==> c in conditions && |PairsOf(pairs, c)| == 0
  {
    FilterMembers(conditions, c => |PairsOf(pairs, c)| == 0);
    Filter(conditions, c => |PairsOf(pairs, c)| == 0)
  }

  /** The loop of main.py:58-66 over the conditions: the
      `all_conditions_have_pairs` flag, and the conditions it reports as having
      no independence pairs. */
  method AllConditionsHavePairs(conditions: seq<string>, pairs: PairsMap)
    returns (all: bool, lacking: seq<string>)
    ensures all <==> EveryConditionHasPairs(conditions, pairs)
    ensures lacking == Lacking(conditions, pairs)
  {
    all := true;
    lacking := [];
    for i := 0 to |conditions|
      invariant all <==> forall j :: 0 <= j < i ==> |PairsOf(pairs, conditions[j])| > 0
      invariant lacking == Lacking(conditions[..i], pairs)
    {
      var found := PairsOf(pairs, conditions[i]);
      if |found| == 0 {
        all := false;
        lacking := lacking + [conditions[i]];
      }
      LackingAppend(conditions[..i], conditions[i], pairs);
      assert conditions[..i + 1] == conditions[..i] + [conditions[i]];
    }
    assert conditions[..|conditions|] == conditions;
  }

  lemma {:induction false} LackingAppend(conditions: seq<string>, c: string, pairs: PairsMap)
    ensures Lacking(conditions + [c], pairs) ==
            Lacking(conditions, pairs) + (if |PairsOf(pairs, c)| == 0 then [c] else [])
  {
    if conditions == [] {
      assert [c][1..] == [];
    } else {
      assert (conditions + [c])[0] == conditions[0];
      assert (conditions + [c])[1..] == conditions[1..] + [c];
      LackingAppend(conditions[1..], c, pairs);
    }
  }

  // ---------------------------------------------------------------------------
  // One analysis

  /** The report of the "no pairs" stop (main.py:48-55): the conditions that
      are not achievable, when there are fewer achievable ones than conditions. */
  function Uncoverable(conditions: seq<string>, pairs: PairsMap): Option<seq<string>>
  {
    var achievable := Filter(conditions, c => Achievable(pairs, c));
    if |achievable| < |conditions| then Some(Filter(conditions, c => c !in achievable)) else None
  }

  /** What the selector's answer leads to (main.py:78-91). */
  function SelectionOutcome(answer: Call<Selection>): Outcome
  {
    match answer
    case Threw(e) => ErrorOutcome(e)
    case Returned(s) =>
      if s.coverage.Some? then Covered(s.selected, s.coverage.value)
      else Incomplete(if |s.selected| > 0 then Some(s.selected) else None)
  }

  /** The part of `run_mcdc_analysis` after a table was generated (main.py:44-91). */
  function Gate(conditions: seq<string>, table: seq<Row>, find: PairFinder, select: TestSelector): Outcome
  {
    match find(table, conditions)
    case Threw(e) => ErrorOutcome(e)
    case Returned(pairs) =>
      if |pairs| == 0 || !AnyPairs(pairs) then NoPairs(Uncoverable(conditions, pairs))
      else if !EveryConditionHasPairs(conditions, pairs) then MissingPairs(Lacking(conditions, pairs))
      else SelectionOutcome(select(pairs, conditions, |table|))
  }

  /** `run_mcdc_analysis(expression)`, without its printing. */
  function Analysis(expression: string, eval: Evaluator, find: PairFinder, select: TestSelector): Outcome
    requires IsAscii(expression)
  {
    match ParseConditions(expression)
    case Err(_) => InputError
    case Ok(conditions) =>
      var table := TruthTable(expression, conditions, eval);
      if table.None? || |table.value| == 0 then NoTruthTable
      else Gate(conditions, table.value, find, select)
  }

  /** `run_mcdc_analysis(expression)`, step by step. */
  method RunMcdcAnalysis(expression: string, eval: Evaluator, find: PairFinder, select: TestSelector)
    returns (outcome: Outcome)
    requires IsAscii(expression)
    ensures outcome == Analysis(expression, eval, find, select)
  {
    var parsed := ParseConditions(expression);
    if parsed.Err? {
      return InputError;
    }
    var conditions := parsed.value;
    var table := GenerateTruthTable(expression, conditions, eval);
    if table.None? || |table.value| == 0 {
      return NoTruthTable;
    }
    var found := find(table.value, conditions);
    if found.Threw? {
      return ErrorOutcome(found.error);
    }
    var pairs := found.value;
    if |pairs| == 0 || !AnyPairs(pairs) {
      return NoPairs(Uncoverable(conditions, pairs));
    }
    var all, lacking := AllConditionsHavePairs(conditions, pairs);
    if !all {
      return MissingPairs(lacking);
    }
    var answer := select(pairs, conditions, |table.value|);
    if answer.Threw? {
      return ErrorOutcome(answer.error);
    }
    var selection := answer.value;
    if selection.coverage.Some? {
      outcome := Covered(selection.selected, selection.coverage.value);
    } else if |selection.selected| > 0 {
      outcome := Incomplete(Some(selection.selected));
    } else {
      outcome := Incomplete(None);
    }
  }

  // ---------------------------------------------------------------------------
  // Properties of one analysis

  /** The parsed conditions are pairwise distinct, so the keys of a table row
      do not collide among themselves (only `Decision` can collide). */
  lemma ParsedConditionsDistinct(expression: string)
    requires IsAscii(expression) && ParseConditions(expression).Ok?
    ensures Distinct(ParseConditions(expression).value)
  {
    var c := ParseConditions(expression).value;
    forall a, b | 0 <= a < b < |c| ensures c[a] != c[b] {
      LessIrreflexive(c[a]);
    }
  }

  /** A parse error ends the analysis as an input error, before the table is
      generated and the engine is called. */
  lemma ParseErrorIsInputError(expression: string, eval1: Evaluator, find1: PairFinder, select1: TestSelector,
                               eval2: Evaluator, find2: PairFinder, select2: TestSelector)
    requires IsAscii(expression) && ParseConditions(expression).Err?
    ensures Analysis(expression, eval1, find1, select1) == InputError
    ensures Analysis(expression, eval1, find1, select1) == Analysis(expression, eval2, find2, select2)
  {
  }

  /** Without a table, neither the pair finder nor the selector is consulted. */
  lemma NoTableStopsBeforeEngine(expression: string, eval: Evaluator,
                                 find1: PairFinder, select1: TestSelector,
                                 find2: PairFinder, select2: TestSelector)
    requires IsAscii(expression) && ParseConditions(expression).Ok?
    requires TruthTable(expression, ParseConditions(expression).value, eval).None?
    ensures Analysis(expression, eval, find1, select1) == NoTruthTable
    ensures Analysis(expression, eval, find1, select1) == Analysis(expression, eval, find2, select2)
  {
  }

  /** The analysis stops for want of a table exactly when the expression
      parses and its evaluation fails on some combination. */
  lemma NoTruthTableIff(expression: string, eval: Evaluator, find: PairFinder, select: TestSelector)
    requires IsAscii(expression)
    ensures Analysis(expression, eval, find, select) == NoTruthTable <==>
            ParseConditions(expression).Ok? &&
            var conditions := ParseConditions(expression).value;
            exists i :: 0 <= i < Pow2(|conditions|) && eval(expression, Namespace(conditions, i)).Raised?
  {
    if ParseConditions(expression).Ok? {
      var conditions := ParseConditions(expression).value;
      TruthTableAllOrNothing(expression, conditions, eval);
      var table := TruthTable(expression, conditions, eval);
      if table.Some? {
        GateIsNotNoTruthTable(conditions, table.value, find, select);
      }
    }
  }

  lemma GateIsNotNoTruthTable(conditions: seq<string>, table: seq<Row>, find: PairFinder, select: TestSelector)
    ensures Gate(conditions, table, find, select) != NoTruthTable
  {
    match find(table, conditions)
    case Threw(e) =>
    case Returned(pairs) =>
      if !(|pairs| == 0 || !AnyPairs(pairs)) && EveryConditionHasPairs(conditions, pairs) {
        match select(pairs, conditions, |table|)
        case Threw(e) =>
        case Returned(s) =>
      }
  }

  /** When no condition has a pair, the report names every condition lacking
      pairs, in order, and that is all of them. */
  lemma NoPairsReportsLacking(conditions: seq<string>, pairs: PairsMap)
    requires !AnyPairs(pairs) && |conditions| > 0
    ensures Uncoverable(conditions, pairs) == Some(Lacking(conditions, pairs))
    ensures Lacking(conditions, pairs) == conditions
  {
    var achievable := Filter(conditions, c => Achievable(pairs, c));
    FilterMembers(conditions, c => Achievable(pairs, c));
    assert forall c :: c in conditions ==> !Achievable(pairs, c);
    FilterAll(conditions, c => |PairsOf(pairs, c)| == 0);
    FilterPartition(conditions, c => Achievable(pairs, c), c => |PairsOf(pairs, c)| == 0);
    FilterCongruent(conditions, c => c !in achievable, c => |PairsOf(pairs, c)| == 0);
  }

  /** Whatever the map, the "no pairs" report lists exactly the conditions
      that lack pairs, in order, whenever there is one. */
  lemma UncoverableIsLacking(conditions: seq<string>, pairs: PairsMap)
    ensures Uncoverable(conditions, pairs).Some? <==> |Lacking(conditions, pairs)| > 0
    ensures Uncoverable(conditions, pairs).Some? ==> Uncoverable(conditions, pairs).value == Lacking(conditions, pairs)
  {
    var achievable := Filter(conditions, c => Achievable(pairs, c));
    FilterMembers(conditions, c => Achievable(pairs, c));
    FilterCongruent(conditions, c => c !in achievable, c => |PairsOf(pairs, c)| == 0);
    FilterPartition(conditions, c => Achievable(pairs, c), c => |PairsOf(pairs, c)| == 0);
  }

  /** The selector is consulted only when every condition has a pair, and then
      with the number of rows of the table; otherwise its answer is irrelevant. */
  lemma SelectorOnlyWhenAllCovered(conditions: seq<string>, table: seq<Row>, find: PairFinder,
                                   select1: TestSelector, select2: TestSelector)
    ensures (find(table, conditions).Returned? &&
             var pairs := find(table, conditions).value;
             |pairs| > 0 && AnyPairs(pairs) && EveryConditionHasPairs(conditions, pairs))
            ==> Gate(conditions, table, find, select1) ==
                SelectionOutcome(select1(find(table, conditions).value, conditions, |table|))
    ensures !(find(table, conditions).Returned? &&
              var pairs := find(table, conditions).value;
              |pairs| > 0 && AnyPairs(pairs) && EveryConditionHasPairs(conditions, pairs))
            ==> Gate(conditions, table, find, select1) == Gate(conditions, table, find, select2)
  {
  }

  /** Success is reported exactly when the selector returns a coverage map;
      a partial set is shown only when it is non-empty. */
  lemma SelectionReports(answer: Call<Selection>)
    ensures SelectionOutcome(answer).Covered? <==> answer.Returned? && answer.value.coverage.Some?
    ensures SelectionOutcome(answer).Incomplete? <==> answer.Returned? && answer.value.coverage.None?
    ensures SelectionOutcome(answer).Incomplete? && SelectionOutcome(answer).partial.Some? ==>
            SelectionOutcome(answer).partial.value == answer.value.selected && |answer.value.selected| > 0
  {
  }

  /** When some but not all conditions have pairs, the analysis stops before
      selection and names exactly the conditions without pairs. */
  lemma MissingPairsNamesLacking(conditions: seq<string>, table: seq<Row>, find: PairFinder, select: TestSelector)
    requires Gate(conditions, table, find, select).MissingPairs?
    ensures find(table, conditions).Returned?
    ensures var lacking := Gate(conditions, table, find, select).lacking;
            |lacking| > 0 &&
            forall c :: c in lacking <==> c in conditions && |PairsOf(find(table, conditions).value, c)| == 0
  {
    var pairs := find(table, conditions).value;
    var c :| c in conditions && |PairsOf(pairs, c)| == 0;
    assert c in Lacking(conditions, pairs);
  }

  // ---------------------------------------------------------------------------
  // The input loop

  /** Python's `str.isspace` on ASCII characters. */
  predicate IsSpace(ch: char)
  {
    ch == ' ' || ch == '\t' || ch == '\n' || ch == '\r' || ch == '\U{B}' || ch == '\U{C}' ||
    ('\U{1C}' <= ch <= '\U{1F}')
  }

  /** The text after leading white space. */
  function StripStart(s: string): string
  {
    if s != [] && IsSpace(s[0]) then StripStart(s[1..]) else s
  }

  /** `StripStart` drops a prefix of white space and stops at the first
      other character. */
  lemma {:induction false} StripStartSpec(s: string)
    ensures |StripStart(s)| <= |s| && StripStart(s) == s[|s| - |StripStart(s)|..]
    ensures forall k :: 0 <= k < |s| - |StripStart(s)| ==> IsSpace(s[k])
    ensures StripStart(s) == [] || !IsSpace(StripStart(s)[0])
  {
    if s != [] && IsSpace(s[0]) {
      StripStartSpec(s[1..]);
      assert forall k :: 1 <= k < |s| ==> s[k] == s[1..][k - 1];
    }
  }

  /** The text before trailing white space. */
  function StripEnd(s: string): string
  {
    if s != [] && IsSpace(s[|s| - 1]) then StripEnd(s[..|s| - 1]) else s
  }

  /** `StripEnd` drops a suffix of white space and stops at the last
      other character. */
  lemma {:induction false} StripEndSpec(s: string)
    ensures |StripEnd(s)| <= |s| && StripEnd(s) == s[..|StripEnd(s)|]
    ensures forall k :: |StripEnd(s)| <= k < |s| ==> IsSpace(s[k])
    ensures StripEnd(s) == [] || !IsSpace(StripEnd(s)[|StripEnd(s)| - 1])
  {
    if s != [] && IsSpace(s[|s| - 1]) {
      StripEndSpec(s[..|s| - 1]);
      assert forall k :: 0 <= k < |s| - 1 ==> s[k] == s[..|s| - 1][k];
    }
  }

  /** `str.strip()`. */
  function Strip(s: string): string
  {
    StripEnd(StripStart(s))
  }

  /** `strip` removes white space, and only white space, from both ends:
      what is left starts at `a` and has no white space at either end. */
  lemma StripSpec(s: string)
    ensures var a := |s| - |StripStart(s)|;
            && 0 <= a && a + |Strip(s)| <= |s| && s[a..a + |Strip(s)|] == Strip(s)
            && (forall k :: 0 <= k < a ==> IsSpace(s[k]))
            && (forall k :: a + |Strip(s)| <= k < |s| ==> IsSpace(s[k]))
    ensures Strip(s) == [] || (!IsSpace(Strip(s)[0]) && !IsSpace(Strip(s)[|Strip(s)| - 1]))
  {
    var t := StripStart(s);
    StripStartSpec(s);
    var a := |s| - |t|;
    var r := StripEnd(t);
    StripEndSpec(t);
    StripInner(s, t, r, a);
  }

  /** What is kept of `s` after the first `a` characters, and then of that
      after its first `|r|` characters. */
  lemma StripInner(s: string, t: string, r: string, a: nat)
    requires a <= |s| && t == s[a..] && |r| <= |t| && r == t[..|r|]
    requires forall k :: |r| <= k < |t| ==> IsSpace(t[k])
    ensures s[a..a + |r|] == r
    ensures forall k :: a + |r| <= k < |s| ==> IsSpace(s[k])
    ensures r != [] ==> r[0] == t[0]
  {
    forall k | a + |r| <= k < |s| ensures IsSpace(s[k]) {
      assert s[k] == t[k - a];
    }
  }

  /** A line strips to nothing exactly when it is all white space. */
  lemma StripEmptyIff(s: string)
    ensures Strip(s) == [] <==> forall k :: 0 <= k < |s| ==> IsSpace(s[k])
  {
    StripSpec(s);
    if Strip(s) != [] {
      var a := |s| - |StripStart(s)|;
      assert s[a] == Strip(s)[0];
    }
  }

  /** `str.lower` on one ASCII character. */
  function LowerChar(ch: char): char
  {
    if 'A' <= ch <= 'Z' then (ch as int + 32) as char else ch
  }

  /** `str.lower()`. */
  function Lower(s: string): string
  {
    if s == [] then [] else [LowerChar(s[0])] + Lower(s[1..])
  }

  /** `lower` maps each character on its own and keeps the length. */
  lemma {:induction false} LowerSpec(s: string)
    ensures |Lower(s)| == |s|
    ensures forall k :: 0 <= k < |s| ==> Lower(s)[k] == LowerChar(s[k])
  {
    if s != [] {
      LowerSpec(s[1..]);
    }
  }

  /** How the loop treats one line of input. */
  datatype Reaction = Quit | Blank | Analyse

  /** main.py:119-126: `quit` in any case, surrounded by any white space,
      ends the loop; a blank line is skipped; anything else is analysed. */
  function Classify(line: string): Reaction
  {
    if Lower(Strip(line)) == "quit" then Quit
    else if Strip(line) == [] then Blank
    else Analyse
  }

  /** The quit test ignores case: it holds exactly when the stripped line is
      four characters that lower to `quit`. */
  lemma ClassifyQuitIff(line: string)
    ensures Classify(line) == Quit <==>
            |Strip(line)| == 4 && forall k :: 0 <= k < 4 ==> LowerChar(Strip(line)[k]) == "quit"[k]
  {
    LowerSpec(Strip(line));
    if |Strip(line)| == 4 && forall k :: 0 <= k < 4 ==> LowerChar(Strip(line)[k]) == "quit"[k] {
      assert Lower(Strip(line)) == "quit";
    }
  }

  /** A line is skipped exactly when it is all white space. */
  lemma ClassifyBlankIff(line: string)
    ensures Classify(line) == Blank <==> forall k :: 0 <= k < |line| ==> IsSpace(line[k])
  {
    StripEmptyIff(line);
  }

  lemma ClassifyQuitExample()
    ensures Classify("  QuIt\t") == Quit
  {
    StripQuitLine();
    LowerQuit();
  }

  lemma StripQuitLine()
    ensures Strip("  QuIt\t") == "QuIt"
  {
    assert StripStart("  QuIt\t") == "QuIt\t";
    assert StripEnd("QuIt\t") == "QuIt";
  }

  lemma LowerQuit()
    ensures Lower("QuIt") == "quit"
  {
    assert Lower("t") == "t";
    assert Lower("It") == "it";
    assert Lower("uIt") == "uit";
  }

  lemma ClassifyBlankExample()
    ensures Classify(" \t ") == Blank
  {
    StripEmptyIff(" \t ");
  }

  lemma ClassifyQuitPrefixExample()
    ensures Classify("quit now") == Analyse
  {
    assert StripStart("quit now") == "quit now";
    assert StripEnd("quit now") == "quit now";
  }

  /** What the session shows for one line. */
  datatype Event = Prompted | Analysed(outcome: Outcome)

  predicate AllAscii(lines: seq<string>)
  {
    forall k :: 0 <= k < |lines| ==> IsAscii(lines[k])
  }

  /** The `while True` loop over the lines read, from line `i` on, up to the
      first `quit` or the end of input. */
  function Session(lines: seq<string>, i: nat, eval: Evaluator, find: PairFinder, select: TestSelector): seq<Event>
    requires i <= |lines| && AllAscii(lines)
    decreases |lines| - i
  {
    if i == |lines| then []
    else
      assert IsAscii(lines[i]);
      match Classify(lines[i])
      case Quit => []
      case Blank => [Prompted] + Session(lines, i + 1, eval, find, select)
      case Analyse => [Analysed(Analysis(lines[i], eval, find, select))] + Session(lines, i + 1, eval, find, select)
  }

  /** One turn of the loop: the session from line `i` is that line's event,
      if any, followed by the session from line `i + 1`. */
  lemma SessionStep(lines: seq<string>, i: nat, events: seq<Event>, eval: Evaluator, find: PairFinder, select: TestSelector)
    requires i < |lines| && AllAscii(lines) && Classify(lines[i]) != Quit
    ensures IsAscii(lines[i])
    ensures events + Session(lines, i, eval, find, select) ==
            events + [if Classify(lines[i]) == Blank then Prompted else Analysed(Analysis(lines[i], eval, find, select))] +
            Session(lines, i + 1, eval, find, select)
  {
    assert IsAscii(lines[i]);
  }

  /** The loop of main.py:116-133, reading `lines` and then end of input. */
  method InputLoop(lines: seq<string>, eval: Evaluator, find: PairFinder, select: TestSelector)
    returns (events: seq<Event>)
    requires AllAscii(lines)
    ensures events == Session(lines, 0, eval, find, select)
  {
    events := [];
    var i := 0;
    while i < |lines|
      invariant 0 <= i <= |lines|
      invariant Session(lines, 0, eval, find, select) == events + Session(lines, i, eval, find, select)
    {
      var line := lines[i];
      assert IsAscii(line);
      var reaction := Classify(line);
      if reaction == Quit {
        break;
      }
      SessionStep(lines, i, events, eval, find, select);
      if reaction == Blank {
        events := events + [Prompted];
      } else {
        var outcome := RunMcdcAnalysis(line, eval, find, select);
        events := events + [Analysed(outcome)];
      }
      i := i + 1;
    }
  }

  /** Nothing after the first `quit` is read: two inputs that agree up to a
      `quit` line give the same session, and each line before the `quit`
      gives at most one event. */
  lemma {:induction false} SessionEndsAtQuit(a: seq<string>, b: seq<string>, q: nat, i: nat,
                                             eval: Evaluator, find: PairFinder, select: TestSelector)
    requires q < |a| && q < |b| && i <= q
    requires forall k :: 0 <= k <= q ==> a[k] == b[k]
    requires Classify(a[q]) == Quit
    requires AllAscii(a) && AllAscii(b)
    ensures Session(a, i, eval, find, select) == Session(b, i, eval, find, select)
    ensures |Session(a, i, eval, find, select)| <= q - i
    decreases q - i
  {
    assert a[i] == b[i];
    if i < q {
      SessionEndsAtQuit(a, b, q, i + 1, eval, find, select);
    }
  }
}
