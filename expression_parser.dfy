/** `parse_conditions`: the condition names of a boolean expression are its
    identifier tokens other than the five keywords, without duplicates, in
    ascending order; an expression without one is an error. */
module ExpressionParser {
  import opened Wrappers

  /** The words that are dropped from the identifier tokens. */
  const Keywords: set<string> := {"and", "or", "not", "True", "False"}

  datatype ParseError = NoConditionsFound

  /** An identifier that survives the keyword filter. */
  predicate IsConditionName(t: string)
  {
    t !in Keywords
  }

  /** The model is stated for ASCII text, where Python's `\b` and the
      pattern's character classes agree with the predicates below. */
  predicate IsAscii(s: string)
  {
    forall i :: 0 <= i < |s| ==> s[i] as int < 128
  }

  /** A character of `\w` on ASCII text: `[A-Za-z0-9_]`. */
  predicate IsWordChar(ch: char)
  {
    ('a' <= ch <= 'z') || ('A' <= ch <= 'Z') || ('0' <= ch <= '9') || ch == '_'
  }

  /** The first character of the pattern: `[a-zA-Z_]`. */
  predicate IsIdentStart(ch: char)
  {
    ('a' <= ch <= 'z') || ('A' <= ch <= 'Z') || ch == '_'
  }

  /** A string the pattern `[a-zA-Z_][a-zA-Z0-9_]*` matches in full. */
  predicate IsIdentifier(t: string)
  {
    |t| > 0 && IsIdentStart(t[0]) && forall k :: 1 <= k < |t| ==> IsWordChar(t[k])
  }

  /** `s[i..j]` is a match of `\b[a-zA-Z_][a-zA-Z0-9_]*\b`: an identifier with
      a word boundary on each side. */
  ghost predicate TokenAt(s: string, i: int, j: int)
  {
    && 0 <= i < j <= |s|
    && IsIdentifier(s[i..j])
    && (i == 0 || !IsWordChar(s[i - 1]))
    && (j == |s| || !IsWordChar(s[j]))
  }

  /** The end of the run of word characters that starts at `i`. */
  function RunEnd(s: string, i: nat): (j: nat)
    requires i <= |s|
    ensures i <= j <= |s|
    ensures forall k :: i <= k < j ==> IsWordChar(s[k])
    ensures j == |s| || !IsWordChar(s[j])
    decreases |s| - i
  {
    if i == |s| || !IsWordChar(s[i]) then i else RunEnd(s, i + 1)
  }

  /** The position `i` is not strictly inside a run of word characters. */
  predicate AtBoundary(s: string, i: nat)
    requires i <= |s|
  {
    i == 0 || i == |s| || !IsWordChar(s[i - 1]) || !IsWordChar(s[i])
  }

  /** `re.findall` of the identifier pattern on `s[i..]`, scanning left to
      right: each maximal run of word characters yields itself when it starts
      with a letter or `_`, and nothing when it starts with a digit (no word
      boundary falls inside a run). */
  function FindIdentifiers(s: string, i: nat): seq<string>
    requires i <= |s| && AtBoundary(s, i)
    decreases |s| - i
  {
    if i == |s| then []
    else if !IsWordChar(s[i]) then FindIdentifiers(s, i + 1)
    else
      var j := RunEnd(s, i);
      (if IsIdentStart(s[i]) then [s[i..j]] else []) + FindIdentifiers(s, j)
  }

  /** Every string the scan returns matches the identifier pattern. */
  lemma {:induction false} FindIdentifiersAreIdentifiers(s: string, i: nat)
    requires i <= |s| && AtBoundary(s, i)
    ensures forall t :: t in FindIdentifiers(s, i) ==> IsIdentifier(t)
    decreases |s| - i
  {
    if i < |s| {
      if !IsWordChar(s[i]) {
        FindIdentifiersAreIdentifiers(s, i + 1);
      } else {
        var j := RunEnd(s, i);
        FindIdentifiersAreIdentifiers(s, j);
        assert IsIdentStart(s[i]) ==> IsIdentifier(s[i..j]) by {
          forall k | 1 <= k < j - i ensures IsWordChar(s[i..j][k]) {
            assert s[i..j][k] == s[i + k];
          }
        }
      }
    }
  }

  /** Every identifier the scan returns is a boundary-delimited token of `s`. */
  lemma {:induction false} FindIdentifiersSound(s: string, i: nat, t: string)
    requires i <= |s| && AtBoundary(s, i)
    requires t in FindIdentifiers(s, i)
    ensures exists a, b :: i <= a && TokenAt(s, a, b) && s[a..b] == t
    decreases |s| - i
  {
    if !IsWordChar(s[i]) {
      FindIdentifiersSound(s, i + 1, t);
    } else {
      var j := RunEnd(s, i);
      if IsIdentStart(s[i]) && t == s[i..j] {
        assert TokenAt(s, i, j);
      } else {
        FindIdentifiersSound(s, j, t);
      }
    }
  }

  /** Every boundary-delimited token of `s` at or after `i` is returned. */
  lemma {:induction false} FindIdentifiersComplete(s: string, i: nat, a: int, b: int)
    requires i <= |s| && AtBoundary(s, i)
    requires i <= a && TokenAt(s, a, b)
    ensures s[a..b] in FindIdentifiers(s, i)
    decreases |s| - i
  {
    assert s[a] == s[a..b][0];
    if !IsWordChar(s[i]) {
      FindIdentifiersComplete(s, i + 1, a, b);
    } else {
      var j := RunEnd(s, i);
      if a == i {
        forall k | a <= k < b ensures IsWordChar(s[k]) {
          assert s[k] == s[a..b][k - a];
        }
        assert b == j;
      } else {
        assert !IsWordChar(s[a - 1]);
        FindIdentifiersComplete(s, j, a, b);
      }
    }
  }

  /** Two pieces whose junction is not inside a word. */
  predicate Joinable(u: string, v: string)
  {
    u == [] || v == [] || !IsWordChar(u[|u| - 1]) || !IsWordChar(v[0])
  }

  lemma {:induction false} RunEndShift(u: string, v: string, k: nat)
    requires k <= |v|
    ensures RunEnd(u + v, |u| + k) == |u| + RunEnd(v, k)
    decreases |v| - k
  {
    if k < |v| && IsWordChar(v[k]) {
      RunEndShift(u, v, k + 1);
    }
  }

  lemma {:induction false} RunEndPrefix(u: string, v: string, i: nat)
    requires i < |u| && Joinable(u, v)
    ensures RunEnd(u + v, i) == RunEnd(u, i)
    decreases |u| - i
  {
    if IsWordChar(u[i]) && i + 1 < |u| {
      RunEndPrefix(u, v, i + 1);
    }
  }

  /** A boundary of `v` is a boundary of `u + v`. */
  lemma ShiftBoundary(u: string, v: string, k: nat)
    requires k <= |v| && AtBoundary(v, k) && Joinable(u, v)
    ensures AtBoundary(u + v, |u| + k)
  {
    var s := u + v;
    if k > 0 {
      assert s[|u| + k - 1] == v[k - 1];
    }
    if k < |v| {
      assert s[|u| + k] == v[k];
    }
  }

  /** One step of the scan of `u + v` inside `v`: a run of `v` is a run of `u + v`. */
  lemma ShiftRun(u: string, v: string, k: nat)
    requires k < |v| && AtBoundary(v, k) && Joinable(u, v) && IsWordChar(v[k])
    ensures AtBoundary(u + v, |u| + k) && AtBoundary(u + v, |u| + RunEnd(v, k))
    ensures FindIdentifiers(u + v, |u| + k) ==
            (if IsIdentStart(v[k]) then [v[k..RunEnd(v, k)]] else []) + FindIdentifiers(u + v, |u| + RunEnd(v, k))
  {
    var s := u + v;
    var j := RunEnd(v, k);
    ShiftBoundary(u, v, k);
    ShiftBoundary(u, v, j);
    RunEndShift(u, v, k);
    assert s[|u| + k] == v[k];
    assert s[|u| + k..|u| + j] == v[k..j];
  }

  /** One step of the scan of `u + v` inside `v`: a separator of `v` is skipped. */
  lemma ShiftSkip(u: string, v: string, k: nat)
    requires k < |v| && AtBoundary(v, k) && Joinable(u, v) && !IsWordChar(v[k])
    ensures AtBoundary(u + v, |u| + k) && AtBoundary(u + v, |u| + k + 1)
    ensures FindIdentifiers(u + v, |u| + k) == FindIdentifiers(u + v, |u| + k + 1)
  {
    ShiftBoundary(u, v, k);
    ShiftBoundary(u, v, k + 1);
    assert (u + v)[|u| + k] == v[k];
  }

  /** Scanning `u + v` from a position inside `v` is scanning `v`. */
  lemma {:induction false} FindIdentifiersShift(u: string, v: string, k: nat)
    requires k <= |v| && AtBoundary(v, k) && Joinable(u, v)
    ensures AtBoundary(u + v, |u| + k)
    ensures FindIdentifiers(u + v, |u| + k) == FindIdentifiers(v, k)
    decreases |v| - k
  {
    ShiftBoundary(u, v, k);
    if k < |v| {
      if !IsWordChar(v[k]) {
        FindIdentifiersShift(u, v, k + 1);
        ShiftSkip(u, v, k);
      } else {
        FindIdentifiersShift(u, v, RunEnd(v, k));
        ShiftRun(u, v, k);
      }
    }
  }

  /** `re.findall` distributes over two pieces joined outside a word. */
  lemma {:induction false} FindIdentifiersConcat(u: string, v: string, i: nat)
    requires i <= |u| && AtBoundary(u, i) && Joinable(u, v)
    ensures AtBoundary(u + v, i)
    ensures FindIdentifiers(u + v, i) == FindIdentifiers(u, i) + FindIdentifiers(v, 0)
    decreases |u| - i
  {
    var s := u + v;
    if i == |u| {
      FindIdentifiersShift(u, v, 0);
    } else {
      assert s[i] == u[i];
      if i > 0 {
        assert s[i - 1] == u[i - 1];
      }
      if !IsWordChar(u[i]) {
        FindIdentifiersConcat(u, v, i + 1);
      } else {
        var j := RunEnd(u, i);
        RunEndPrefix(u, v, i);
        assert s[i..j] == u[i..j];
        FindIdentifiersConcat(u, v, j);
      }
    }
  }

  // ---------------------------------------------------------------------------
  // Python's `sorted` on strings: code-point lexicographic order

  /** Python's `<` on `str`: compare code points from the left; a proper
      prefix is smaller. */
  predicate Less(a: string, b: string)
  {
    |b| > 0 && (|a| == 0 || a[0] < b[0] || (a[0] == b[0] && Less(a[1..], b[1..])))
  }

  lemma {:induction false} LessIrreflexive(a: string)
    ensures !Less(a, a)
  {
    if |a| > 0 {
      LessIrreflexive(a[1..]);
    }
  }

  lemma {:induction false} LessTransitive(a: string, b: string, c: string)
    requires Less(a, b) && Less(b, c)
    ensures Less(a, c)
  {
    if |a| > 0 && a[0] == b[0] && b[0] == c[0] {
      LessTransitive(a[1..], b[1..], c[1..]);
    }
  }

  lemma {:induction false} LessTotal(a: string, b: string)
    requires a != b
    ensures Less(a, b) || Less(b, a)
  {
    if |a| > 0 && |b| > 0 && a[0] == b[0] {
      assert a == [a[0]] + a[1..] && b == [b[0]] + b[1..];
      LessTotal(a[1..], b[1..]);
    }
  }

  lemma LessAntisymmetric(a: string, b: string)
    ensures !(Less(a, b) && Less(b, a))
  {
    if Less(a, b) && Less(b, a) {
      LessTransitive(a, b, a);
      LessIrreflexive(a);
    }
  }

  /** Strictly ascending, hence free of duplicates. */
  ghost predicate StrictlyAscending(s: seq<string>)
  {
    forall i, j :: 0 <= i < j < |s| ==> Less(s[i], s[j])
  }

  /** Adds `x` to an ascending, duplicate-free list at its place, or leaves the
      list as it is when `x` is already there. */
  function Insert(x: string, s: seq<string>): (r: seq<string>)
    requires StrictlyAscending(s)
    ensures StrictlyAscending(r)
    ensures forall y :: y in r <==> y == x || y in s
  {
    if s == [] then [x]
    else if x == s[0] then s
    else if Less(x, s[0]) then
      assert forall j :: 0 < j < |s| ==> Less(x, s[j]) by {
        forall j | 0 < j < |s| ensures Less(x, s[j]) {
          LessTransitive(x, s[0], s[j]);
        }
      }
      [x] + s
    else
      LessTotal(x, s[0]);
      var rest := Insert(x, s[1..]);
      assert forall y :: y in rest ==> Less(s[0], y);
      [s[0]] + rest
  }

  /** `sorted(set(xs))`: the distinct elements of `xs` in ascending order. */
  function SortUnique(xs: seq<string>): (r: seq<string>)
    ensures StrictlyAscending(r)
    ensures forall y :: y in r <==> y in xs
  {
    if xs == [] then [] else Insert(xs[0], SortUnique(xs[1..]))
  }

  /** There is only one strictly ascending list with given elements, so
      `SortUnique` is exactly Python's `sorted(list(set(xs)))`. */
  lemma {:induction false} AscendingUnique(a: seq<string>, b: seq<string>)
    requires StrictlyAscending(a) && StrictlyAscending(b)
    requires forall y :: y in a <==> y in b
    ensures a == b
  {
    assert a != [] ==> a[0] in a;
    assert b != [] ==> b[0] in b;
    if a != [] && b != [] {
      var j :| 0 <= j < |b| && b[j] == a[0];
      var k :| 0 <= k < |a| && a[k] == b[0];
      assert j > 0 ==> Less(b[0], a[0]);
      assert k > 0 ==> Less(a[0], b[0]);
      LessAntisymmetric(a[0], b[0]);
      forall y ensures y in a[1..] <==> y in b[1..] {
        if y in a[1..] {
          var m :| 1 <= m < |a| && a[m] == y;
          assert Less(a[0], y);
          LessIrreflexive(y);
          assert y in b && y != b[0];
          assert b == [b[0]] + b[1..];
        }
        if y in b[1..] {
          var m :| 1 <= m < |b| && b[m] == y;
          assert Less(b[0], y);
          LessIrreflexive(y);
          assert y in a && y != a[0];
          assert a == [a[0]] + a[1..];
        }
      }
      AscendingUnique(a[1..], b[1..]);
      assert a == [a[0]] + a[1..] && b == [b[0]] + b[1..];
    }
  }

  // ---------------------------------------------------------------------------
  // parse_conditions

  /** `parse_conditions`: tokenise, drop the keywords, deduplicate and sort;
      fail when nothing is left. */
  function ParseConditions(expression: string): (r: Result<seq<string>, ParseError>)
    requires IsAscii(expression)
    ensures r.Ok? ==> |r.value| > 0 && StrictlyAscending(r.value)
    ensures r.Ok? ==> forall c :: c in r.value ==> c !in Keywords && IsIdentifier(c)
  {
    var identifiers := FindIdentifiers(expression, 0);
    FilterMembers(identifiers, IsConditionName);
    FindIdentifiersAreIdentifiers(expression, 0);
    var conditions := SortUnique(Filter(identifiers, IsConditionName));
    if |conditions| == 0 then Err(NoConditionsFound) else Ok(conditions)
  }

  /** Soundness: every returned name occurs in the expression as a whole,
      boundary-delimited identifier token. */
  lemma ParseConditionsSound(expression: string, c: string)
    requires IsAscii(expression) && ParseConditions(expression).Ok?
    requires c in ParseConditions(expression).value
    ensures exists a, b :: TokenAt(expression, a, b) && expression[a..b] == c
  {
    FilterMembers(FindIdentifiers(expression, 0), IsConditionName);
    FindIdentifiersSound(expression, 0, c);
  }

  /** Completeness: every identifier token that is not a keyword is returned. */
  lemma ParseConditionsComplete(expression: string, a: int, b: int)
    requires IsAscii(expression) && TokenAt(expression, a, b)
    requires expression[a..b] !in Keywords
    ensures ParseConditions(expression).Ok?
    ensures expression[a..b] in ParseConditions(expression).value
  {
    FilterMembers(FindIdentifiers(expression, 0), IsConditionName);
    FindIdentifiersComplete(expression, 0, a, b);
  }

  /** The `ValueError` is raised exactly when every identifier token of the
      expression is a keyword (or there is none). */
  lemma ParseConditionsFailsIff(expression: string)
    requires IsAscii(expression)
    ensures ParseConditions(expression).Err? <==>
            forall a, b :: TokenAt(expression, a, b) ==> expression[a..b] in Keywords
  {
    if ParseConditions(expression).Err? {
      forall a, b | TokenAt(expression, a, b) ensures expression[a..b] in Keywords {
        if expression[a..b] !in Keywords {
          ParseConditionsComplete(expression, a, b);
        }
      }
    } else {
      var c := ParseConditions(expression).value[0];
      ParseConditionsSound(expression, c);
    }
  }

  /** The result is the one strictly ascending list whose elements are the
      non-keyword identifier tokens, i.e. `sorted(set(...))` as Python computes it. */
  lemma ParseConditionsIsSortedSet(expression: string, conditions: seq<string>)
    requires IsAscii(expression) && ParseConditions(expression).Ok?
    requires StrictlyAscending(conditions)
    requires forall c :: c in conditions <==>
               c in FindIdentifiers(expression, 0) && c !in Keywords
    ensures ParseConditions(expression).value == conditions
  {
    FilterMembers(FindIdentifiers(expression, 0), IsConditionName);
    AscendingUnique(ParseConditions(expression).value, conditions);
  }

  // `re.findall` on the self-test expressions. Each text is cut into short
  // pieces at positions outside a word; each piece is scanned step by step
  // and the pieces are joined with FindIdentifiersConcat.

  /** Scanning a text that is two pieces joined outside a word. */
  lemma JoinTokens(u: string, v: string, w: string, tu: seq<string>, tv: seq<string>)
    requires w == u + v && Joinable(u, v)
    requires FindIdentifiers(u, 0) == tu && FindIdentifiers(v, 0) == tv
    ensures FindIdentifiers(w, 0) == tu + tv
  {
    FindIdentifiersConcat(u, v, 0);
  }

  lemma TokensOfAB()
    ensures FindIdentifiers("A and B", 0) == ["A", "and", "B"]
  {
    var s := "A and B";
    assert RunEnd(s, 6) == 7;
    assert s[6..7] == "B";
    assert FindIdentifiers(s, 6) == ["B"];
    assert FindIdentifiers(s, 5) == ["B"];
    assert RunEnd(s, 2) == 5;
    assert s[2..5] == "and";
    assert FindIdentifiers(s, 2) == ["and", "B"];
    assert FindIdentifiers(s, 1) == ["and", "B"];
    assert RunEnd(s, 0) == 1;
    assert s[0..1] == "A";
  }

  lemma TokensOfResetHead()
    ensures FindIdentifiers("(Reset or ", 0) == ["Reset", "or"]
  {
    var s := "(Reset or ";
    assert FindIdentifiers(s, 9) == [];
    assert RunEnd(s, 7) == 9;
    assert s[7..9] == "or";
    assert FindIdentifiers(s, 7) == ["or"];
    assert FindIdentifiers(s, 6) == ["or"];
    assert RunEnd(s, 1) == 6;
    assert s[1..6] == "Reset";
    assert FindIdentifiers(s, 1) == ["Reset", "or"];
  }

  lemma TokensOfMotors()
    ensures FindIdentifiers("(M1 and M2", 0) == ["M1", "and", "M2"]
  {
    var s := "(M1 and M2";
    assert RunEnd(s, 8) == 10;
    assert s[8..10] == "M2";
    assert FindIdentifiers(s, 8) == ["M2"];
    assert FindIdentifiers(s, 7) == ["M2"];
    assert RunEnd(s, 4) == 7;
    assert s[4..7] == "and";
    assert FindIdentifiers(s, 4) == ["and", "M2"];
    assert FindIdentifiers(s, 3) == ["and", "M2"];
    assert RunEnd(s, 1) == 3;
    assert s[1..3] == "M1";
    assert FindIdentifiers(s, 1) == ["M1", "and", "M2"];
  }

  lemma TokensOfAndNot()
    ensures FindIdentifiers(")) and not", 0) == ["and", "not"]
  {
    var s := ")) and not";
    assert RunEnd(s, 7) == 10;
    assert s[7..10] == "not";
    assert FindIdentifiers(s, 7) == ["not"];
    assert FindIdentifiers(s, 6) == ["not"];
    assert RunEnd(s, 3) == 6;
    assert s[3..6] == "and";
    assert FindIdentifiers(s, 3) == ["and", "not"];
    assert FindIdentifiers(s, 2) == ["and", "not"];
    assert FindIdentifiers(s, 1) == ["and", "not"];
  }

  lemma TokensOfDeactivate()
    ensures FindIdentifiers(" Deactivate", 0) == ["Deactivate"]
  {
    var s := " Deactivate";
    assert RunEnd(s, 1) == 11;
    assert s[1..11] == "Deactivate";
    assert FindIdentifiers(s, 1) == ["Deactivate"];
  }

  lemma SplitResetTail()
    ensures ")) and not Deactivate" == ")) and not" + " Deactivate"
  {
  }

  lemma SplitResetMiddle()
    ensures "(M1 and M2)) and not Deactivate" == "(M1 and M2" + ")) and not Deactivate"
  {
  }

  lemma SplitReset()
    ensures "(Reset or (M1 and M2)) and not Deactivate" == "(Reset or " + "(M1 and M2)) and not Deactivate"
  {
  }

  lemma TokensOfResetTail()
    ensures FindIdentifiers(")) and not Deactivate", 0) == ["and", "not", "Deactivate"]
  {
    TokensOfAndNot();
    TokensOfDeactivate();
    SplitResetTail();
    JoinTokens(")) and not", " Deactivate", ")) and not Deactivate", ["and", "not"], ["Deactivate"]);
  }

  lemma TokensOfResetMiddle()
    ensures FindIdentifiers("(M1 and M2)) and not Deactivate", 0) == ["M1", "and", "M2", "and", "not", "Deactivate"]
  {
    TokensOfMotors();
    TokensOfResetTail();
    SplitResetMiddle();
    JoinTokens("(M1 and M2", ")) and not Deactivate", "(M1 and M2)) and not Deactivate",
               ["M1", "and", "M2"], ["and", "not", "Deactivate"]);
  }

  lemma ResetTokensJoin()
    ensures ["Reset", "or"] + ["M1", "and", "M2", "and", "not", "Deactivate"] == ["Reset", "or", "M1", "and", "M2", "and", "not", "Deactivate"]
  {
  }

  lemma TokensOfReset()
    ensures FindIdentifiers("(Reset or (M1 and M2)) and not Deactivate", 0) == ["Reset", "or", "M1", "and", "M2", "and", "not", "Deactivate"]
  {
    TokensOfResetHead();
    TokensOfResetMiddle();
    SplitReset();
    ResetTokensJoin();
    JoinTokens("(Reset or ", "(M1 and M2)) and not Deactivate", "(Reset or (M1 and M2)) and not Deactivate",
               ["Reset", "or"], ["M1", "and", "M2", "and", "not", "Deactivate"]);
  }

  lemma TokensOfKeywordsAlone()
    ensures FindIdentifiers("and or not", 0) == ["and", "or", "not"]
  {
    var s := "and or not";
    assert RunEnd(s, 7) == 10;
    assert s[7..10] == "not";
    assert FindIdentifiers(s, 7) == ["not"];
    assert FindIdentifiers(s, 6) == ["not"];
    assert RunEnd(s, 4) == 6;
    assert s[4..6] == "or";
    assert FindIdentifiers(s, 4) == ["or", "not"];
    assert FindIdentifiers(s, 3) == ["or", "not"];
    assert RunEnd(s, 0) == 3;
    assert s[0..3] == "and";
  }

  lemma TokensOfOnlyKeywordsHead()
    ensures FindIdentifiers("only_keywords ", 0) == ["only_keywords"]
  {
    var s := "only_keywords ";
    assert FindIdentifiers(s, 13) == [];
    assert RunEnd(s, 0) == 13;
    assert s[0..13] == "only_keywords";
  }

  lemma SplitOnlyKeywords()
    ensures "only_keywords and or not" == "only_keywords " + "and or not"
  {
  }

  lemma TokensOfOnlyKeywords()
    ensures FindIdentifiers("only_keywords and or not", 0) == ["only_keywords", "and", "or", "not"]
  {
    TokensOfOnlyKeywordsHead();
    TokensOfKeywordsAlone();
    SplitOnlyKeywords();
    JoinTokens("only_keywords ", "and or not", "only_keywords and or not", ["only_keywords"], ["and", "or", "not"]);
  }

  lemma TokensOfLeadingDigit()
    ensures FindIdentifiers("1A or B2", 0) == ["or", "B2"]
  {
    var s := "1A or B2";
    assert RunEnd(s, 6) == 8;
    assert s[6..8] == "B2";
    assert FindIdentifiers(s, 6) == ["B2"];
    assert FindIdentifiers(s, 5) == ["B2"];
    assert RunEnd(s, 3) == 5;
    assert s[3..5] == "or";
    assert FindIdentifiers(s, 3) == ["or", "B2"];
    assert FindIdentifiers(s, 2) == ["or", "B2"];
    assert RunEnd(s, 0) == 2;
  }

  // The self-tests of expression_parser.py, as the code behaves.

  lemma NamesOfAB()
    ensures Filter(["A", "and", "B"], IsConditionName) == ["A", "B"]
  {
    assert Filter([], IsConditionName) == [];
    assert Filter(["B"], IsConditionName) == ["B"];
    assert Filter(["and", "B"], IsConditionName) == ["B"];
  }

  lemma ParseConditionsOfAB()
    ensures ParseConditions("A and B") == Ok(["A", "B"])
  {
    TokensOfAB();
    NamesOfAB();
    assert SortUnique(["A", "B"]) == ["A", "B"] by {
      assert SortUnique([]) == [];
      assert SortUnique(["B"]) == ["B"];
    }
  }

  lemma NamesOfResetTail()
    ensures Filter(["M2", "and", "not", "Deactivate"], IsConditionName) == ["M2", "Deactivate"]
  {
    assert Filter([], IsConditionName) == [];
    assert Filter(["Deactivate"], IsConditionName) == ["Deactivate"];
    assert Filter(["not", "Deactivate"], IsConditionName) == ["Deactivate"];
    assert Filter(["and", "not", "Deactivate"], IsConditionName) == ["Deactivate"];
  }

  lemma NamesOfReset()
    ensures Filter(["Reset", "or", "M1", "and", "M2", "and", "not", "Deactivate"], IsConditionName) == ["Reset", "M1", "M2", "Deactivate"]
  {
    NamesOfResetTail();
    assert Filter(["and", "M2", "and", "not", "Deactivate"], IsConditionName) == ["M2", "Deactivate"];
    assert Filter(["M1", "and", "M2", "and", "not", "Deactivate"], IsConditionName) == ["M1", "M2", "Deactivate"];
    assert Filter(["or", "M1", "and", "M2", "and", "not", "Deactivate"], IsConditionName) == ["M1", "M2", "Deactivate"];
  }

  lemma SortedNamesOfReset()
    ensures SortUnique(["Reset", "M1", "M2", "Deactivate"]) == ["Deactivate", "M1", "M2", "Reset"]
  {
    assert SortUnique([]) == [];
    assert SortUnique(["Deactivate"]) == ["Deactivate"];
    assert SortUnique(["M2", "Deactivate"]) == ["Deactivate", "M2"];
    assert SortUnique(["M1", "M2", "Deactivate"]) == ["Deactivate", "M1", "M2"];
  }

  lemma ParseConditionsOfReset()
    ensures ParseConditions("(Reset or (M1 and M2)) and not Deactivate") == Ok(["Deactivate", "M1", "M2", "Reset"])
  {
    TokensOfReset();
    NamesOfReset();
    SortedNamesOfReset();
  }

  /** The self-test comment expects this one to fail, but `only_keywords` is
      itself an identifier, so the code returns it. */
  lemma ParseConditionsOfOnlyKeywords()
    ensures ParseConditions("only_keywords and or not") == Ok(["only_keywords"])
  {
    TokensOfOnlyKeywords();
    NamesOfOnlyKeywords();
    assert SortUnique(["only_keywords"]) == ["only_keywords"] by {
      assert SortUnique([]) == [];
    }
  }

  lemma NamesOfOnlyKeywords()
    ensures Filter(["only_keywords", "and", "or", "not"], IsConditionName) == ["only_keywords"]
  {
    assert Filter([], IsConditionName) == [];
    assert Filter(["not"], IsConditionName) == [];
    assert Filter(["or", "not"], IsConditionName) == [];
    assert Filter(["and", "or", "not"], IsConditionName) == [];
  }

  lemma ParseConditionsOfKeywordsAlone()
    ensures ParseConditions("and or not") == Err(NoConditionsFound)
  {
    TokensOfKeywordsAlone();
    assert Filter(["and", "or", "not"], IsConditionName) == [] by {
      assert Filter([], IsConditionName) == [];
      assert Filter(["not"], IsConditionName) == [];
      assert Filter(["or", "not"], IsConditionName) == [];
    }
  }

  /** A run that starts with a digit (`1A`) yields no token. */
  lemma ParseConditionsOfLeadingDigit()
    ensures ParseConditions("1A or B2") == Ok(["B2"])
  {
    TokensOfLeadingDigit();
    assert Filter(["or", "B2"], IsConditionName) == ["B2"] by {
      assert Filter([], IsConditionName) == [];
      assert Filter(["B2"], IsConditionName) == ["B2"];
    }
    assert SortUnique(["B2"]) == ["B2"] by {
      assert SortUnique([]) == [];
    }
  }
}
