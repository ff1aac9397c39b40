/**
 * The string helpers of `Huffpress::HuffpressCLI`: `splitCommands` cuts an
 * input line into commands at unquoted `&`, `;` and newline; `tokenize`
 * cuts a command into whitespace-separated tokens; `getRemainingTokens`
 * joins every token after the first with single spaces.
 *
 * Both splitters are specified by one reference: mark every character as
 * kept or as a cut, split the marks at the cuts, and drop the empty pieces.
 */
module Cli {

  /** What a splitter does with one input character. */
  datatype Mark = Cut | Keep(c: char)

  // ---------------------------------------------------------------------------
  // Splitting marked text
  // ---------------------------------------------------------------------------

  /** The runs of kept characters between cuts, empty runs included: one more than the cuts. */
  function Pieces(ms: seq<Mark>): (r: seq<string>)
    ensures |r| >= 1
  {
    if ms == [] then [[]]
    else
      var p := Pieces(ms[..|ms| - 1]);
      match ms[|ms| - 1]
      case Cut => p + [[]]
      case Keep(c) => p[..|p| - 1] + [p[|p| - 1] + [c]]
  }

  /** The non-empty strings of `ss`, in order. */
  function NonEmpty(ss: seq<string>): (r: seq<string>)
    ensures forall i :: 0 <= i < |r| ==> |r[i]| > 0
    ensures forall s :: s in r ==> s in ss
  {
    if ss == [] then []
    else
      var n := |ss| - 1;
      NonEmpty(ss[..n]) + (if ss[n] == [] then [] else [ss[n]])
  }

  /** The strings of `ss` one after another. */
  function Concat(ss: seq<string>): string {
    if ss == [] then []
    else Concat(ss[..|ss| - 1]) + ss[|ss| - 1]
  }

  /** The kept characters, in order. */
  function Kept(ms: seq<Mark>): string {
    if ms == [] then []
    else
      Kept(ms[..|ms| - 1]) + match ms[|ms| - 1] { case Cut => [] case Keep(c) => [c] }
  }

  lemma PiecesCut(ms: seq<Mark>)
    ensures Pieces(ms + [Cut]) == Pieces(ms) + [[]]
  {
    assert (ms + [Cut])[..|ms|] == ms;
  }

  lemma PiecesKeep(ms: seq<Mark>, c: char)
    ensures var p := Pieces(ms);
      Pieces(ms + [Keep(c)]) == p[..|p| - 1] + [p[|p| - 1] + [c]]
  {
    assert (ms + [Keep(c)])[..|ms|] == ms;
  }

  lemma NonEmptyAppend(ss: seq<string>, s: string)
    ensures NonEmpty(ss + [s]) == NonEmpty(ss) + (if s == [] then [] else [s])
  {
    assert (ss + [s])[..|ss|] == ss;
  }

  lemma ConcatAppend(ss: seq<string>, s: string)
    ensures Concat(ss + [s]) == Concat(ss) + s
  {
    assert (ss + [s])[..|ss|] == ss;
  }

  /**
   * After a prefix with marks `ms`, a splitter has emitted the non-empty
   * closed pieces and holds the open (last) piece.
   */
  predicate Scanned(ms: seq<Mark>, emitted: seq<string>, open: string) {
    var ps := Pieces(ms);
    emitted == NonEmpty(ps[..|ps| - 1]) && open == ps[|ps| - 1]
  }

  /** A cut closes the open piece, emitting it unless it is empty. */
  lemma ScanCut(ms: seq<Mark>, emitted: seq<string>, open: string)
    requires Scanned(ms, emitted, open)
    ensures Scanned(ms + [Cut], emitted + (if open == [] then [] else [open]), [])
  {
    var p := Pieces(ms);
    PiecesCut(ms);
    assert (p + [[]])[..|p|] == p;
    assert p == p[..|p| - 1] + [p[|p| - 1]];
    NonEmptyAppend(p[..|p| - 1], p[|p| - 1]);
  }

  /** A kept character extends the open piece. */
  lemma ScanKeep(ms: seq<Mark>, c: char, emitted: seq<string>, open: string)
    requires Scanned(ms, emitted, open)
    ensures Scanned(ms + [Keep(c)], emitted, open + [c])
  {
    var p := Pieces(ms);
    PiecesKeep(ms, c);
    var q := p[..|p| - 1] + [p[|p| - 1] + [c]];
    assert q[..|q| - 1] == p[..|p| - 1];
  }

  /** At the end the open piece is emitted unless it is empty. */
  lemma ScanDone(ms: seq<Mark>, emitted: seq<string>, open: string)
    requires Scanned(ms, emitted, open)
    ensures NonEmpty(Pieces(ms)) == emitted + (if open == [] then [] else [open])
  {
    var p := Pieces(ms);
    assert p == p[..|p| - 1] + [p[|p| - 1]];
    NonEmptyAppend(p[..|p| - 1], p[|p| - 1]);
  }

  /** Dropping empty strings does not change the concatenation. */
  lemma {:induction false} ConcatNonEmpty(ss: seq<string>)
    ensures Concat(NonEmpty(ss)) == Concat(ss)
  {
    if ss != [] {
      var n := |ss| - 1;
      assert ss == ss[..n] + [ss[n]];
      ConcatNonEmpty(ss[..n]);
      NonEmptyAppend(ss[..n], ss[n]);
      ConcatAppend(ss[..n], ss[n]);
      if ss[n] != [] {
        ConcatAppend(NonEmpty(ss[..n]), ss[n]);
      } else {
        assert NonEmpty(ss) == NonEmpty(ss[..n]) + [] == NonEmpty(ss[..n]);
        assert Concat(ss) == Concat(ss[..n]) + [] == Concat(ss[..n]);
      }
    }
  }

  /** The pieces, put back together, are exactly the kept characters. */
  lemma {:induction false} ConcatPieces(ms: seq<Mark>)
    ensures Concat(Pieces(ms)) == Kept(ms)
  {
    if ms != [] {
      var n := |ms| - 1;
      var p := Pieces(ms[..n]);
      ConcatPieces(ms[..n]);
      assert ms == ms[..n] + [ms[n]];
      match ms[n]
      case Cut =>
        PiecesCut(ms[..n]);
        ConcatAppend(p, []);
      case Keep(c) =>
        PiecesKeep(ms[..n], c);
        var k := |p| - 1;
        assert p == p[..k] + [p[k]];
        ConcatAppend(p[..k], p[k]);
        ConcatAppend(p[..k], p[k] + [c]);
    }
  }

  /** Every character of every piece is kept somewhere in the marks. */
  lemma {:induction false} PieceChars(ms: seq<Mark>)
    ensures forall s, x :: s in Pieces(ms) && x in s ==> Keep(x) in ms
  {
    if ms != [] {
      var n := |ms| - 1;
      var p := Pieces(ms[..n]);
      PieceChars(ms[..n]);
      assert ms == ms[..n] + [ms[n]];
      match ms[n]
      case Cut =>
        PiecesCut(ms[..n]);
      case Keep(c) =>
        PiecesKeep(ms[..n], c);
        var k := |p| - 1;
        assert p[k] in p;
        assert forall s :: s in p[..k] ==> s in p;
    }
  }

  // ---------------------------------------------------------------------------
  // splitCommands
  // ---------------------------------------------------------------------------

  /** The characters that end a command outside quotes. */
  predicate IsSeparator(c: char) {
    c == '&' || c == ';' || c == '\n'
  }

  /**
   * Whether the text after `s` is inside quotes: every `"` toggles, except
   * one right after a backslash.
   */
  function InQuotes(s: string): bool {
    if s == [] then false
    else
      var p := s[..|s| - 1];
      if s[|s| - 1] == '"' && (p == [] || p[|p| - 1] != '\\') then !InQuotes(p) else InQuotes(p)
  }

  /** The `"` at position `i` toggles the quote mode: it does not follow a backslash. */
  predicate TogglesAt(s: string, i: nat)
    requires i < |s|
  {
    s[i] == '"' && (i == 0 || s[i - 1] != '\\')
  }

  /** The positions of the `"` characters that toggle. */
  ghost function Toggles(s: string): set<nat> {
    set i: nat | i < |s| && TogglesAt(s, i)
  }

  /** Appending a character keeps the earlier toggles and adds its own position if it toggles. */
  lemma TogglesSnoc(s: string)
    requires s != []
    ensures Toggles(s) == Toggles(s[..|s| - 1]) + (if TogglesAt(s, |s| - 1) then {|s| - 1} else {})
    ensures |s| - 1 !in Toggles(s[..|s| - 1])
  {
    var p := s[..|s| - 1];
    forall i: nat | i < |p|
      ensures TogglesAt(s, i) == TogglesAt(p, i)
    {
    }
  }

  /** The text after `s` is inside quotes exactly when an odd number of its quotes toggle. */
  lemma {:induction false} InQuotesParity(s: string)
    ensures InQuotes(s) <==> |Toggles(s)| % 2 == 1
  {
    if s != [] {
      InQuotesParity(s[..|s| - 1]);
      TogglesSnoc(s);
    } else {
      assert Toggles(s) == {};
    }
  }

  /** A separator outside quotes is a cut; every other character, quotes included, is kept. */
  function CommandMarks(s: string): (ms: seq<Mark>)
    ensures |ms| == |s|
  {
    if s == [] then []
    else
      var p := s[..|s| - 1];
      var c := s[|s| - 1];
      CommandMarks(p) + [if IsSeparator(c) && !InQuotes(p) then Cut else Keep(c)]
  }

  /** The last character of `line[..i + 1]` extends both references by one step. */
  lemma CommandStep(line: string, i: nat)
    requires i < |line|
    ensures var p := line[..i];
      var c := line[i];
      CommandMarks(line[..i + 1]) == CommandMarks(p) + [if IsSeparator(c) && !InQuotes(p) then Cut else Keep(c)] &&
      InQuotes(line[..i + 1]) == if c == '"' && (i == 0 || line[i - 1] != '\\') then !InQuotes(p) else InQuotes(p)
  {
    assert line[..i + 1][..i] == line[..i];
  }

  /**
   * `splitCommands(line)`: the commands are the non-empty runs between
   * unquoted separators; no command is empty, and together they are the
   * line without its unquoted separators.
   */
  method SplitCommands(line: string) returns (commands: seq<string>)
    ensures commands == NonEmpty(Pieces(CommandMarks(line)))
    ensures forall i :: 0 <= i < |commands| ==> |commands[i]| > 0
    ensures Concat(commands) == Kept(CommandMarks(line))
  {
    commands := [];
    var currentCommand: string := [];
    var insideQuotes := false;
    for i := 0 to |line|
      invariant SplitState(line, i, commands, currentCommand, insideQuotes)
    {
      var c := line[i];
      SplitStep(line, i, commands, currentCommand, insideQuotes);
      if c == '"' && (currentCommand == [] || currentCommand[|currentCommand| - 1] != '\\') {
        insideQuotes := !insideQuotes;
      }
      if !insideQuotes && (c == '&' || c == ';' || c == '\n') {
        if currentCommand != [] {
          commands := commands + [currentCommand];
          currentCommand := [];
        }
      } else {
        currentCommand := currentCommand + [c];
      }
    }
    assert line[..|line|] == line;
    SplitDone(CommandMarks(line), commands, currentCommand);
    if currentCommand != [] {
      commands := commands + [currentCommand];
    }
  }

  /**
   * The state of `splitCommands` after `line[..i]`: the quote flag, the
   * commands emitted and the open one, which ends with the previous
   * character unless that character was a cut separator.
   */
  predicate SplitState(line: string, i: nat, commands: seq<string>, open: string, quoted: bool)
    requires i <= |line|
  {
    quoted == InQuotes(line[..i]) &&
    Scanned(CommandMarks(line[..i]), commands, open) &&
    (i > 0 ==> if open == [] then IsSeparator(line[i - 1]) else open[|open| - 1] == line[i - 1])
  }

  /** One pass of the loop of `splitCommands` over `line[i]`. */
  lemma SplitStep(line: string, i: nat, commands: seq<string>, open: string, quoted: bool)
    requires i < |line| && SplitState(line, i, commands, open, quoted)
    ensures var c := line[i];
      var q := if c == '"' && (open == [] || open[|open| - 1] != '\\') then !quoted else quoted;
      if !q && IsSeparator(c) then
        SplitState(line, i + 1, if open == [] then commands else commands + [open], [], q)
      else
        SplitState(line, i + 1, commands, open + [c], q)
  {
    var c := line[i];
    var marks := CommandMarks(line[..i]);
    CommandStep(line, i);
    if IsSeparator(c) && !InQuotes(line[..i]) {
      ScanCut(marks, commands, open);
    } else {
      ScanKeep(marks, c, commands, open);
    }
  }

  /** After the last mark the open piece, if not empty, is the last one; the result is then complete. */
  lemma SplitDone(ms: seq<Mark>, emitted: seq<string>, open: string)
    requires Scanned(ms, emitted, open)
    ensures var r := emitted + (if open == [] then [] else [open]);
      r == NonEmpty(Pieces(ms)) && Concat(r) == Kept(ms)
  {
    ScanDone(ms, emitted, open);
    ConcatNonEmpty(Pieces(ms));
    ConcatPieces(ms);
  }

  /** Without quote characters nothing is quoted: every separator is a cut. */
  lemma {:induction false} NoQuotes(s: string)
    requires '"' !in s
    ensures !InQuotes(s)
    ensures forall i :: 0 <= i < |s| ==> CommandMarks(s)[i] == if IsSeparator(s[i]) then Cut else Keep(s[i])
  {
    if s != [] {
      var p := s[..|s| - 1];
      assert forall x :: x in p ==> x in s;
      NoQuotes(p);
      assert CommandMarks(s) == CommandMarks(p) + [CommandMarks(s)[|s| - 1]];
    }
  }

  /** Inside quotes a separator is kept; outside it is cut. */
  lemma {:induction false} SeparatorMarks(s: string, i: nat)
    requires i < |s| && IsSeparator(s[i])
    ensures CommandMarks(s)[i] == if InQuotes(s[..i]) then Keep(s[i]) else Cut
  {
    if i < |s| - 1 {
      var p := s[..|s| - 1];
      assert p[..i] == s[..i];
      SeparatorMarks(p, i);
    }
  }

  // ---------------------------------------------------------------------------
  // tokenize
  // ---------------------------------------------------------------------------

  /** The whitespace that `operator>>` skips in the C locale: space, `\t \n \v \f \r`. */
  predicate IsSpace(c: char) {
    c == ' ' || 9 <= c as int <= 13
  }

  /** Whitespace is a cut; everything else is kept. */
  function SpaceMarks(s: string): (ms: seq<Mark>)
    ensures |ms| == |s|
    ensures forall x :: Keep(x) in ms ==> !IsSpace(x)
  {
    if s == [] then []
    else
      var c := s[|s| - 1];
      SpaceMarks(s[..|s| - 1]) + [if IsSpace(c) then Cut else Keep(c)]
  }

  /**
   * `tokenize(cmd)`: extracting strings with `>>` until the stream is
   * exhausted yields the maximal runs of non-whitespace; no token is empty
   * or holds whitespace, and together they are `cmd` without its whitespace.
   */
  method Tokenize(cmd: string) returns (tokens: seq<string>)
    ensures tokens == NonEmpty(Pieces(SpaceMarks(cmd)))
    ensures forall i :: 0 <= i < |tokens| ==> |tokens[i]| > 0
    ensures forall i, j :: 0 <= i < |tokens| && 0 <= j < |tokens[i]| ==> !IsSpace(tokens[i][j])
    ensures Concat(tokens) == Kept(SpaceMarks(cmd))
  {
    tokens := [];
    var token: string := [];
    for i := 0 to |cmd|
      invariant Scanned(SpaceMarks(cmd[..i]), tokens, token)
    {
      SpaceStep(cmd, i);
      if IsSpace(cmd[i]) {
        ScanCut(SpaceMarks(cmd[..i]), tokens, token);
        if token != [] {
          tokens := tokens + [token];
          token := [];
        }
      } else {
        ScanKeep(SpaceMarks(cmd[..i]), cmd[i], tokens, token);
        token := token + [cmd[i]];
      }
    }
    assert cmd[..|cmd|] == cmd;
    ScanDone(SpaceMarks(cmd), tokens, token);
    if token != [] {
      tokens := tokens + [token];
    }
    TokensProperties(cmd, tokens);
  }

  /** The character at `i` extends the marks of `cmd[..i]` by one. */
  lemma SpaceStep(cmd: string, i: nat)
    requires i < |cmd|
    ensures SpaceMarks(cmd[..i + 1]) == SpaceMarks(cmd[..i]) + [if IsSpace(cmd[i]) then Cut else Keep(cmd[i])]
  {
    assert cmd[..i + 1][..i] == cmd[..i];
  }

  /** What the tokens of `cmd` are made of. */
  lemma TokensProperties(cmd: string, tokens: seq<string>)
    requires tokens == NonEmpty(Pieces(SpaceMarks(cmd)))
    ensures forall i, j :: 0 <= i < |tokens| && 0 <= j < |tokens[i]| ==> !IsSpace(tokens[i][j])
    ensures Concat(tokens) == Kept(SpaceMarks(cmd))
  {
    var ps := Pieces(SpaceMarks(cmd));
    ConcatNonEmpty(ps);
    ConcatPieces(SpaceMarks(cmd));
    PieceChars(SpaceMarks(cmd));
    forall i, j | 0 <= i < |tokens| && 0 <= j < |tokens[i]|
      ensures !IsSpace(tokens[i][j])
    {
      assert tokens[i] in tokens;
      assert tokens[i] in ps;
      assert tokens[i][j] in tokens[i];
    }
  }

  // ---------------------------------------------------------------------------
  // getRemainingTokens
  // ---------------------------------------------------------------------------

  /** The lambda given to `std::accumulate`: the first string joins without a space. */
  function JoinStep(a: string, b: string): string {
    if a == [] then b else a + " " + b
  }

  /** The lambda returns "" only when both strings are empty. */
  lemma JoinStepEmpty(a: string, b: string)
    ensures JoinStep(a, b) == [] <==> a == [] && b == []
  {
  }

  /** `std::accumulate(ts.begin(), ts.end(), init, JoinStep)`: a left fold. */
  function Accumulate(init: string, ts: seq<string>): string {
    if ts == [] then init
    else JoinStep(Accumulate(init, ts[..|ts| - 1]), ts[|ts| - 1])
  }

  /** A left fold over `ts + us` is the fold over `us` started from the fold over `ts`. */
  lemma {:induction false} AccumulateAppend(init: string, ts: seq<string>, us: seq<string>)
    ensures Accumulate(init, ts + us) == Accumulate(Accumulate(init, ts), us)
  {
    if us != [] {
      var n := |us| - 1;
      assert (ts + us)[..|ts| + n] == ts + us[..n];
      AccumulateAppend(init, ts, us[..n]);
    } else {
      assert ts + us == ts;
    }
  }

  /** `getRemainingTokens(tokens)`: every token after the first, folded; `""` for at most one token. */
  function RemainingTokens(tokens: seq<string>): (r: string)
    ensures |tokens| <= 1 ==> r == []
  {
    if |tokens| > 1 then Accumulate([], tokens[1..]) else []
  }

  /** The strings with one space between neighbours. */
  function Join(ts: seq<string>): string {
    if ts == [] then []
    else if |ts| == 1 then ts[0]
    else ts[0] + " " + Join(ts[1..])
  }

  lemma {:induction false} JoinSnoc(ts: seq<string>, t: string)
    requires ts != []
    ensures Join(ts + [t]) == Join(ts) + " " + t
  {
    if |ts| > 1 {
      assert (ts + [t])[1..] == ts[1..] + [t];
      JoinSnoc(ts[1..], t);
    } else {
      assert (ts + [t])[1..] == [t];
    }
  }

  /** Folding non-empty strings with `JoinStep` puts exactly one space between neighbours. */
  lemma {:induction false} AccumulateJoin(ts: seq<string>)
    requires forall i :: 0 <= i < |ts| ==> |ts[i]| > 0
    ensures Accumulate([], ts) == Join(ts)
    ensures ts != [] ==> |Accumulate([], ts)| > 0
  {
    if ts != [] {
      var n := |ts| - 1;
      AccumulateJoin(ts[..n]);
      assert ts == ts[..n] + [ts[n]];
      if n > 0 {
        JoinSnoc(ts[..n], ts[n]);
      }
    }
  }

  /**
   * With non-empty tokens, as `Tokenize` returns, the remaining tokens are
   * those after the first joined by single spaces.
   */
  lemma RemainingTokensJoin(tokens: seq<string>)
    requires forall i :: 0 <= i < |tokens| ==> |tokens[i]| > 0
    ensures |tokens| >= 1 ==> RemainingTokens(tokens) == Join(tokens[1..])
  {
    if |tokens| > 1 {
      AccumulateJoin(tokens[1..]);
    }
  }

  /** The fold skips leading empty strings together with their space. */
  lemma {:induction false} AccumulateLeadingEmpty(ts: seq<string>)
    ensures Accumulate([], [[]] + ts) == Accumulate([], ts)
  {
    if ts != [] {
      var n := |ts| - 1;
      assert ([[]] + ts)[..n + 1] == [[]] + ts[..n];
      AccumulateLeadingEmpty(ts[..n]);
    }
  }
}
