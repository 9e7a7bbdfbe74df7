/**
 * parseline: the tokenizer that turns a command line into an argument vector
 * and a background flag.  The line's last character (the newline) becomes a
 * space; arguments are separated by runs of spaces; an argument that opens
 * with a single quote runs to the next single quote, spaces included; a last
 * argument that starts with '&' is removed and reported as "run in the
 * background"; a blank line also reports 1.  Positions in the buffer stand
 * for parseline's pointers into its copy of the line.
 */
module Parse {
  import opened Basics

  /** strchr(b + from, c): the position of the first c at or after from; none (NULL) if there is none. */
  function Find(b: string, from: nat, c: char): (r: Option<nat>)
    requires from <= |b|
    ensures r.Some? ==> from <= r.value < |b|
    decreases |b| - from
  {
    if from == |b| then None
    else if b[from] == c then Some(from)
    else Find(b, from + 1, c)
  }

  /** Where the "ignore spaces" loop stops when it starts at i: the first position from i that is not a space. */
  function Lead(b: string, i: nat): (j: nat)
    requires i <= |b|
    ensures i <= j <= |b|
    decreases |b| - i
  {
    if i < |b| && b[i] == ' ' then Lead(b, i + 1) else i
  }

  /**
   * One round of the tokenizer from position i: the next argument and the
   * position just past its delimiter; none when no delimiter follows, which
   * ends the scan.
   */
  function NextToken(b: string, i: nat): (r: Option<(string, nat)>)
    requires i <= |b|
    ensures r.Some? ==> i < r.value.1 <= |b|
  {
    var j := Lead(b, i);
    if j < |b| && b[j] == '\'' then
      match Find(b, j + 1, '\'')
      case None => None
      case Some(d) => Some((b[j + 1..d], d + 1))
    else
      match Find(b, j, ' ')
      case None => None
      case Some(d) => Some((b[j..d], d + 1))
  }

  /** All arguments the tokenizer extracts from b starting at position i, in order. */
  function Tokens(b: string, i: nat): seq<string>
    requires i <= |b|
    decreases |b| - i
  {
    match NextToken(b, i)
    case None => []
    case Some((tok, n)) => [tok] + Tokens(b, n)
  }

  /** The buffer parseline scans: the line with its last character replaced by a space. */
  function Buffer(cmdline: string): (b: string)
    requires |cmdline| >= 1
    ensures |b| == |cmdline| && b[|b| - 1] == ' '
    ensures forall k :: 0 <= k < |cmdline| - 1 ==> b[k] == cmdline[k]
  {
    cmdline[..|cmdline| - 1] + " "
  }

  /** *arg == '&': the argument's first character is an ampersand (an empty argument's is the NUL). */
  predicate StartsWithAmp(arg: string)
  {
    arg != [] && arg[0] == '&'
  }

  /**
   * What parseline returns for cmdline: the argument vector and the flag.
   * The flag is set exactly when there is no argument or the last one starts
   * with '&', and the vector is the argument list without that last argument
   * when it does.
   */
  function Parsed(cmdline: string): (r: (seq<string>, bool))
    requires |cmdline| >= 1
    ensures var toks := Tokens(Buffer(cmdline), 0);
      r.1 <==> toks == [] || StartsWithAmp(toks[|toks| - 1])
    ensures var toks := Tokens(Buffer(cmdline), 0);
      toks == r.0 + (if r.1 && toks != [] then [toks[|toks| - 1]] else [])
  {
    var toks := Tokens(Buffer(cmdline), 0);
    if toks == [] then ([], true)
    else if StartsWithAmp(toks[|toks| - 1]) then (toks[..|toks| - 1], true)
    else (toks, false)
  }

  /** What strchr promises: the position found holds c and no c comes before it; none means no c at all. */
  lemma {:induction false} FindSpec(b: string, from: nat, c: char)
    requires from <= |b|
    ensures var r := Find(b, from, c);
      (r.Some? ==> b[r.value] == c && forall k :: from <= k < r.value ==> b[k] != c) &&
      (r.None? ==> forall k :: from <= k < |b| ==> b[k] != c)
    decreases |b| - from
  {
    if from < |b| && b[from] != c {
      FindSpec(b, from + 1, c);
    }
  }

  /** Conversely, the first c from `from` at d (or none, d == |b|) is what Find returns. */
  lemma {:induction false} FindAt(b: string, from: nat, c: char, d: nat)
    requires from <= d <= |b|
    requires forall k :: from <= k < d ==> b[k] != c
    requires d < |b| ==> b[d] == c
    ensures Find(b, from, c) == if d == |b| then None else Some(d)
    decreases d - from
  {
    if from < d {
      FindAt(b, from + 1, c, d);
    }
  }

  /** What the space-skipping loop promises: it passes only spaces and stops at a non-space or the end. */
  lemma {:induction false} LeadSpec(b: string, i: nat)
    requires i <= |b|
    ensures var j := Lead(b, i);
      (forall k :: i <= k < j ==> b[k] == ' ') && (j < |b| ==> b[j] != ' ')
    decreases |b| - i
  {
    if i < |b| && b[i] == ' ' {
      LeadSpec(b, i + 1);
    }
  }

  /** Conversely, a run of spaces from i ended by a non-space (or the end) at j is what Lead returns. */
  lemma {:induction false} LeadAt(b: string, i: nat, j: nat)
    requires i <= j <= |b|
    requires forall k :: i <= k < j ==> b[k] == ' '
    requires j < |b| ==> b[j] != ' '
    ensures Lead(b, i) == j
    decreases j - i
  {
    if i < j {
      LeadAt(b, i + 1, j);
    }
  }

  /** strchr: the loop that looks for c from position from, proved to find what Find describes. */
  method StrChr(b: string, from: nat, c: char) returns (r: Option<nat>)
    requires from <= |b|
    ensures r == Find(b, from, c)
  {
    var d := from;
    while d < |b| && b[d] != c
      invariant from <= d <= |b|
      invariant forall k :: from <= k < d ==> b[k] != c
    {
      d := d + 1;
    }
    FindAt(b, from, c, d);
    r := if d == |b| then None else Some(d);
  }

  /**
   * The delimiter search from position i found what one round of the
   * tokenizer finds: no delimiter, or an argument b[start..d] delimited at d.
   */
  predicate Found(b: string, i: nat, start: nat, delim: Option<nat>)
  {
    i <= |b| &&
    match delim
    case None => NextToken(b, i).None?
    case Some(d) => start <= d < |b| && NextToken(b, i) == Some((b[start..d], d + 1))
  }

  /**
   * The block parseline runs before its loop and at the end of each round:
   * skip the spaces from i, step over an opening quote, and strchr for the
   * delimiter.  The argument, if a delimiter is found, starts at start.
   */
  method Advance(b: string, i: nat) returns (start: nat, delim: Option<nat>)
    requires i <= |b|
    ensures Found(b, i, start, delim)
  {
    var j := i;
    while j < |b| && b[j] == ' '
      invariant i <= j <= |b|
      invariant forall k :: i <= k < j ==> b[k] == ' '
    {
      j := j + 1;
    }
    LeadAt(b, i, j);
    if j < |b| && b[j] == '\'' {
      start := j + 1;
      delim := StrChr(b, start, '\'');
    } else {
      start := j;
      delim := StrChr(b, start, ' ');
    }
  }

  /** The "build the argv list" loop of parseline: every argument of the buffer, in order. */
  method SplitArguments(b: string) returns (argv: seq<string>)
    ensures argv == Tokens(b, 0)
  {
    argv := [];
    var start: nat, delim: Option<nat> := Advance(b, 0);
    var p: nat := 0;
    while delim.Some?
      invariant Found(b, p, start, delim)
      invariant argv + Tokens(b, p) == Tokens(b, 0)
      decreases |b| - p
    {
      var d := delim.value;
      FoundNext(b, p, start, d);
      argv := argv + [b[start..d]];
      p := d + 1;
      start, delim := Advance(b, p);
    }
    FoundLast(b, p, start);
    assert argv + [] == argv;
  }

  /** A round that found a delimiter at d contributes b[start..d], and the scan goes on after d. */
  lemma FoundNext(b: string, p: nat, start: nat, d: nat)
    requires Found(b, p, start, Some(d))
    ensures start <= d < |b| && Tokens(b, p) == [b[start..d]] + Tokens(b, d + 1)
  {
    TokensStep(b, p);
  }

  /** A round that found no delimiter ends the scan. */
  lemma FoundLast(b: string, p: nat, start: nat)
    requires Found(b, p, start, None)
    ensures Tokens(b, p) == []
  {
    TokensStep(b, p);
  }

  /**
   * parseline(cmdline, argv): splits a copy of the line whose newline became
   * a space, then reports a blank line, or a trailing '&' argument, as a
   * background request and strips that argument.
   */
  method ParseLine(cmdline: string) returns (argv: seq<string>, bg: bool)
    requires |cmdline| >= 1
    requires forall k :: 0 <= k < |cmdline| ==> cmdline[k] != '\0'
    ensures (argv, bg) == Parsed(cmdline)
  {
    var b := cmdline[..|cmdline| - 1] + " ";
    argv := SplitArguments(b);
    if |argv| == 0 {
      return [], true;
    }
    bg := StartsWithAmp(argv[|argv| - 1]);
    if bg {
      argv := argv[..|argv| - 1];
    }
  }

  /** Each round consumes at least one character, so there are at most as many arguments as characters left. */
  lemma {:induction false} TokensBound(b: string, i: nat)
    requires i <= |b|
    ensures |Tokens(b, i)| <= |b| - i
    decreases |b| - i
  {
    TokensStep(b, i);
    match NextToken(b, i)
    case None =>
    case Some((tok, n)) =>
      TokensBound(b, n);
  }

  /** The token list is the first round's argument followed by the arguments after its delimiter. */
  lemma TokensStep(b: string, i: nat)
    requires i <= |b|
    ensures NextToken(b, i).None? ==> Tokens(b, i) == []
    ensures NextToken(b, i).Some? ==>
      Tokens(b, i) == [NextToken(b, i).value.0] + Tokens(b, NextToken(b, i).value.1)
  {
  }

  // ---------------------------------------------------------------------
  // The tokenizer only looks ahead
  // ---------------------------------------------------------------------

  /** strchr from inside q gives the same answer when q follows p in the buffer. */
  lemma FindShift(p: string, q: string, from: nat, c: char)
    requires from <= |q|
    ensures Find(p + q, |p| + from, c) ==
      match Find(q, from, c) case None => None case Some(d) => Some(|p| + d)
  {
    var b := p + q;
    var r := Find(q, from, c);
    FindSpec(q, from, c);
    var d := if r.None? then |q| else r.value;
    assert forall k :: from <= k < |q| ==> b[|p| + k] == q[k];
    FindAt(b, |p| + from, c, |p| + d);
  }

  /** A round whose first non-space is a quote: the argument runs to the closing quote. */
  lemma NextTokenQuoted(b: string, i: nat, j: nat)
    requires i <= |b| && Lead(b, i) == j && j < |b| && b[j] == '\''
    ensures NextToken(b, i) ==
      match Find(b, j + 1, '\'') case None => None case Some(d) => Some((b[j + 1..d], d + 1))
  {
  }

  /** A round whose first non-space is not a quote: the argument runs to the next space. */
  lemma NextTokenPlain(b: string, i: nat, j: nat)
    requires i <= |b| && Lead(b, i) == j && (j < |b| ==> b[j] != '\'')
    ensures NextToken(b, i) ==
      match Find(b, j, ' ') case None => None case Some(d) => Some((b[j..d], d + 1))
  {
  }

  /** The space-skipping loop inside q stops at the same place when q follows p. */
  lemma LeadShift(p: string, q: string, i: nat)
    requires i <= |q|
    ensures Lead(p + q, |p| + i) == |p| + Lead(q, i)
  {
    var b := p + q;
    LeadSpec(q, i);
    assert forall k :: i <= k < |q| ==> b[|p| + k] == q[k];
    LeadAt(b, |p| + i, |p| + Lead(q, i));
  }

  /** A stretch of q is the same stretch of p + q, |p| further on. */
  lemma SliceShift(p: string, q: string, x: nat, y: nat)
    requires x <= y <= |q|
    ensures (p + q)[|p| + x..|p| + y] == q[x..y]
  {
  }

  /** One round of the tokenizer inside q gives the same argument when q follows p. */
  lemma NextTokenShift(p: string, q: string, i: nat)
    requires i <= |q|
    ensures NextToken(p + q, |p| + i) ==
      match NextToken(q, i) case None => None case Some((tok, n)) => Some((tok, |p| + n))
  {
    var b := p + q;
    var j := Lead(q, i);
    LeadShift(p, q, i);
    if j < |q| && q[j] == '\'' {
      QuotedShift(p, q, i, j);
    } else {
      PlainShift(p, q, i, j);
    }
  }

  /** NextTokenShift for a round that meets a quote. */
  lemma QuotedShift(p: string, q: string, i: nat, j: nat)
    requires i <= |q| && Lead(q, i) == j && j < |q| && q[j] == '\''
    requires Lead(p + q, |p| + i) == |p| + j
    ensures NextToken(p + q, |p| + i) ==
      match NextToken(q, i) case None => None case Some((tok, n)) => Some((tok, |p| + n))
  {
    var b := p + q;
    assert b[|p| + j] == '\'';
    NextTokenQuoted(q, i, j);
    NextTokenQuoted(b, |p| + i, |p| + j);
    FindShift(p, q, j + 1, '\'');
    match Find(q, j + 1, '\'')
    case None =>
    case Some(d) => SliceShift(p, q, j + 1, d);
  }

  /** NextTokenShift for a round that meets no quote. */
  lemma PlainShift(p: string, q: string, i: nat, j: nat)
    requires i <= |q| && Lead(q, i) == j && (j < |q| ==> q[j] != '\'')
    requires Lead(p + q, |p| + i) == |p| + j
    ensures NextToken(p + q, |p| + i) ==
      match NextToken(q, i) case None => None case Some((tok, n)) => Some((tok, |p| + n))
  {
    var b := p + q;
    assert |p| + j < |b| ==> b[|p| + j] != '\'';
    NextTokenPlain(q, i, j);
    NextTokenPlain(b, |p| + i, |p| + j);
    FindShift(p, q, j, ' ');
    match Find(q, j, ' ')
    case None =>
    case Some(d) => SliceShift(p, q, j, d);
  }

  /** The arguments found in q do not depend on what precedes q in the buffer. */
  lemma {:induction false} TokensShift(p: string, q: string, i: nat)
    requires i <= |q|
    ensures Tokens(p + q, |p| + i) == Tokens(q, i)
    decreases |q| - i
  {
    NextTokenShift(p, q, i);
    match NextToken(q, i)
    case None =>
    case Some((tok, n)) =>
      TokensShift(p, q, n);
  }

  /** A first round that consumes exactly p leaves the arguments of what follows p. */
  lemma RoundThenRest(p: string, rest: string, tok: string)
    requires NextToken(p + rest, 0) == Some((tok, |p|))
    ensures Tokens(p + rest, 0) == [tok] + Tokens(rest, 0)
  {
    TokensStep(p + rest, 0);
    TokensShift(p, rest, 0);
  }

  // ---------------------------------------------------------------------
  // What the tokenizer does with particular lines
  // ---------------------------------------------------------------------

  /** k spaces. */
  function Spaces(k: nat): (s: string)
    ensures |s| == k && forall i :: 0 <= i < k ==> s[i] == ' '
  {
    seq(k, _ => ' ')
  }

  /** A line of nothing but spaces and its newline is blank: no arguments, and the result 1. */
  lemma BlankLine(k: nat, last: char)
    ensures Parsed(Spaces(k) + [last]) == ([], true)
  {
    var b := Buffer(Spaces(k) + [last]);
    assert b == Spaces(k + 1);
    LeadAt(b, 0, k + 1);
  }

  /** The first round on spaces, a quote, a quote-free w and a closing quote yields w. */
  lemma QuotedRound(k: nat, w: string, rest: string)
    requires forall i :: 0 <= i < |w| ==> w[i] != '\''
    ensures NextToken(Spaces(k) + "'" + w + "'" + rest, 0) == Some((w, k + |w| + 2))
  {
    var b := Spaces(k) + "'" + w + "'" + rest;
    assert forall i :: 0 <= i < k ==> b[i] == ' ';
    assert b[k] == '\'';
    LeadAt(b, 0, k);
    NextTokenQuoted(b, 0, k);
    assert forall i :: 0 <= i < |w| ==> b[k + 1 + i] == w[i];
    assert b[k + 1 + |w|] == '\'';
    FindAt(b, k + 1, '\'', k + 1 + |w|);
    assert b[k + 1..k + 1 + |w|] == w;
  }

  /** An argument opened by a quote runs to the next quote, spaces included, after any spaces before it. */
  lemma QuotedArgument(k: nat, w: string, rest: string)
    requires forall i :: 0 <= i < |w| ==> w[i] != '\''
    ensures Tokens(Spaces(k) + "'" + w + "'" + rest, 0) == [w] + Tokens(rest, 0)
  {
    QuotedRound(k, w, rest);
    RoundThenRest(Spaces(k) + "'" + w + "'", rest, w);
  }

  /** A quote that is never closed swallows the rest of the line: the line reads as blank. */
  lemma UnclosedQuote(k: nat, w: string)
    requires forall i :: 0 <= i < |w| ==> w[i] != '\''
    ensures Parsed(Spaces(k) + "'" + w + "\n") == ([], true)
  {
    var b := Buffer(Spaces(k) + "'" + w + "\n");
    assert NextToken(b, 0).None? by {
      assert b == Spaces(k) + "'" + w + " ";
      assert forall i :: 0 <= i < k ==> b[i] == ' ';
      assert b[k] == '\'';
      assert forall i :: k + 1 <= i < |b| ==> b[i] != '\'';
      LeadAt(b, 0, k);
      FindAt(b, k + 1, '\'', |b|);
    }
  }

  /** An ordinary word: not empty, no space, and not opening a quote. */
  predicate Plain(w: string)
  {
    w != [] && w[0] != '\'' && forall i :: 0 <= i < |w| ==> w[i] != ' '
  }

  /** The words, each followed by one space. */
  function Spaced(ws: seq<string>): (s: string)
    ensures ws != [] ==> |s| > 0 && s[|s| - 1] == ' '
  {
    if ws == [] then "" else ws[0] + " " + Spaced(ws[1..])
  }

  /** The command line a user types for the words: separated by single spaces, ended by a newline. */
  function CommandLine(ws: seq<string>): (line: string)
    requires ws != []
    ensures |line| >= 1 && Buffer(line) == Spaced(ws)
  {
    var s := Spaced(ws);
    s[..|s| - 1] + "\n"
  }

  /** The first round on a plain word, a space and anything after yields the word. */
  lemma WordRound(w: string, rest: string)
    requires Plain(w)
    ensures NextToken(w + " " + rest, 0) == Some((w, |w| + 1))
  {
    var b := w + " " + rest;
    assert b[0] == w[0];
    LeadAt(b, 0, 0);
    NextTokenPlain(b, 0, 0);
    assert forall i :: 0 <= i < |w| ==> b[i] == w[i];
    assert b[|w|] == ' ';
    FindAt(b, 0, ' ', |w|);
    assert b[0..|w|] == w;
  }

  /** Words separated by spaces come back as the same words. */
  lemma {:induction false} TokensOfSpaced(ws: seq<string>)
    requires forall i :: 0 <= i < |ws| ==> Plain(ws[i])
    ensures Tokens(Spaced(ws), 0) == ws
  {
    if ws == [] {
      assert Lead("", 0) == 0;
    } else {
      var w, rest := ws[0], Spaced(ws[1..]);
      assert Spaced(ws) == (w + " ") + rest;
      WordRound(w, rest);
      RoundThenRest(w + " ", rest, w);
      TokensOfSpaced(ws[1..]);
    }
  }

  /**
   * parseline inverts typing a command: the words of a line come back as the
   * argument vector, and a trailing "&" word sets the background flag and is
   * dropped.
   */
  lemma ParseCommandLine(ws: seq<string>, bg: bool)
    requires ws != [] && forall i :: 0 <= i < |ws| ==> Plain(ws[i])
    requires !StartsWithAmp(ws[|ws| - 1])
    ensures Parsed(CommandLine(ws + if bg then ["&"] else [])) == (ws, bg)
  {
    var all := ws + if bg then ["&"] else [];
    var line := CommandLine(all);
    assert Tokens(Buffer(line), 0) == all by {
      assert forall i :: 0 <= i < |all| ==> Plain(all[i]);
      TokensOfSpaced(all);
    }
    if bg {
      assert all[|all| - 1] == "&" && all[..|all| - 1] == ws;
    } else {
      assert all == ws;
    }
  }
}
