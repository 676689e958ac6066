/**
 The debug shell's tokenizer, `debug_service_cmd_parse` in `quectel/common/src/debug_service.c`.

 It cuts a command line into C strings in place: terminators are written over the separators, and
 `argv` receives pointers into the line (here indices, with NULL for the null pointer).
 */
module Tokenizer {
  import opened CStrings

  const CMD_ARGC_NUM: nat := 25
  const NULL: int := -1

  predicate IsQuote(c: char) {
    c == '"' || c == '\''
  }

  // ----- What the parse means -----

  function SkipSpaces(s: string): (r: string)
    ensures |r| <= |s|
    ensures r != [] ==> !IsSpace(r[0])
  {
    if s != [] && IsSpace(s[0]) then SkipSpaces(s[1..]) else s
  }

  /** The length of the part of `s` before the first white space. */
  function WordLength(s: string): (n: nat)
    ensures n <= |s|
    ensures forall i :: 0 <= i < n ==> !IsSpace(s[i])
    ensures n < |s| ==> IsSpace(s[n])
  {
    if s == [] || IsSpace(s[0]) then 0 else 1 + WordLength(s[1..])
  }

  /** The length of the part of `s` before the first `mark`. */
  function QuotedLength(s: string, mark: char): (n: nat)
    ensures n <= |s|
    ensures forall i :: 0 <= i < n ==> s[i] != mark
    ensures n < |s| ==> s[n] == mark
  {
    if s == [] || s[0] == mark then 0 else 1 + QuotedLength(s[1..], mark)
  }

  /** `s` without its first `n` characters and the separator behind them, if there is one. */
  function Behind(s: string, n: nat): string
    requires n <= |s|
  {
    if n < |s| then s[n + 1..] else []
  }

  /** The token `u` starts with. */
  function Front(u: string): (t: string)
    requires u != []
    ensures |t| <= |u|
  {
    if IsQuote(u[0]) then u[1..][..QuotedLength(u[1..], u[0])] else u[..WordLength(u)]
  }

  /** What is left behind the token `u` starts with. */
  function After(u: string): (r: string)
    requires u != []
    ensures |r| < |u|
  {
    if IsQuote(u[0]) then Behind(u[1..], QuotedLength(u[1..], u[0])) else Behind(u, WordLength(u))
  }

  /** The first `room` arguments of a command line. */
  function Tokens(s: string, room: nat): (t: seq<string>)
    ensures |t| <= room
    decreases |s|
  {
    var u := SkipSpaces(s);
    if u == [] || room == 0 then [] else [Front(u)] + Tokens(After(u), room - 1)
  }

  lemma TokensSkip(s: string, room: nat)
    ensures Tokens(SkipSpaces(s), room) == Tokens(s, room)
  {
    SkippedTwice(s);
    hide SkipSpaces, Front, After;
  }

  lemma SkippedTwice(s: string)
    ensures SkipSpaces(SkipSpaces(s)) == SkipSpaces(s)
  {
  }

  lemma NextToken(u: string, room: nat)
    requires u != [] && u == SkipSpaces(u)
    ensures Tokens(u, room) == if room == 0 then [] else [Front(u)] + Tokens(After(u), room - 1)
  {
    hide SkipSpaces, Front, After;
  }

  lemma NoToken(room: nat)
    ensures Tokens([], room) == []
  {
  }

  /** The C string `t` lies at index `at`. */
  ghost predicate HoldsString(c: seq<char>, at: int, t: string) {
    && 0 <= at && at + |t| < |c| && c[at + |t|] == NUL
    && (forall j :: 0 <= j < |t| ==> t[j] == c[at + j] && t[j] != NUL)
  }

  /** From `p` on the command line is as it was. */
  ghost predicate Untouched(c: seq<char>, line: string, p: nat) {
    && p <= |line| < |c| && c[|line|] == NUL
    && (forall k :: 0 <= k < |line| ==> line[k] != NUL)
    && (forall k :: p <= k < |line| ==> c[k] == line[k])
  }

  // ----- The parse -----

  /** debug_service_cmd_parse */
  method CmdParse(cmd: array<char>, argv: array<int>, ghost line: string) returns (argc: nat)
    requires |line| < cmd.Length && Untouched(cmd[..], line, 0)
    requires argv.Length == CMD_ARGC_NUM
    modifies cmd, argv
    ensures argc == |Tokens(line, 24)| <= 24
    ensures argv[argc] == NULL
    ensures forall k :: 0 <= k < argc ==>
      HoldsString(cmd[..], argv[k], Tokens(line, 24)[k])
    ensures forall k :: |line| < k < cmd.Length ==> cmd[k] == old(cmd[k])
  {
    hide Tokens, HoldsString, Untouched, Found, Going;
    ghost var found: seq<string> := [];
    ghost var bound: nat := 0;
    var p := SkipFrom(cmd, 0, line);
    argc := 0;
    assert line[0..] == line && argv[..0] == [];
    StartGoing(cmd[..], line, p);
    while cmd[p] != NUL
      invariant argc == |found| < CMD_ARGC_NUM && p <= |line|
      invariant Going(cmd[..], line, p, argv[..argc], found, bound)
      invariant forall k :: |line| < k < cmd.Length ==> cmd[k] == old(cmd[k])
      decreases |line| - p
    {
      GoingAt(cmd[..], line, p, argv[..argc], found, bound);
      argc := argc + 1;
      if argc >= CMD_ARGC_NUM {
        argc := argc - 1;
        break;
      }
      ghost var ptrs := argv[..argc - 1];
      var at, stop;
      at, p, stop, found, bound := TakeArg(cmd, p, line, ptrs, found, bound);
      argv[argc - 1] := at;
      assert argv[..argc] == ptrs + [at];
      if stop {
        break;
      }
    }
    GoingAt(cmd[..], line, p, argv[..argc], found, bound);
    Finished(cmd[..], line, p, argv[..argc], found, bound);
    argv[argc] := NULL;
  }

  /** The state between two tokens: those found, and the ones still to be found. */
  ghost predicate Going(c: seq<char>, line: string, p: nat,
                        ptrs: seq<int>, found: seq<string>, bound: nat)
  {
    && |found| < CMD_ARGC_NUM
    && Untouched(c, line, p) && line[p..] == SkipSpaces(line[p..])
    && (p < |line| ==> bound <= p)
    && Found(c, ptrs, found, bound)
    && Tokens(line, CMD_ARGC_NUM - 1)
       == found + Tokens(line[p..], CMD_ARGC_NUM - 1 - |found|)
  }

  lemma StartGoing(c: seq<char>, line: string, p: nat)
    requires Untouched(c, line, p) && line[p..] == SkipSpaces(line) == SkipSpaces(line[p..])
    ensures Going(c, line, p, [], [], 0)
  {
    hide Tokens, Untouched, SkipSpaces;
    TokensSkip(line, CMD_ARGC_NUM - 1);
    assert [] + Tokens(line, CMD_ARGC_NUM - 1) == Tokens(line, CMD_ARGC_NUM - 1);
  }

  lemma GoingAt(c: seq<char>, line: string, p: nat,
                ptrs: seq<int>, found: seq<string>, bound: nat)
    requires Going(c, line, p, ptrs, found, bound)
    ensures p <= |line| < |c| && (c[p] != NUL <==> p < |line|)
  {
  }

  /** The loop ends when the line does or there is no room for another token. */
  lemma Finished(c: seq<char>, line: string, p: nat,
                 ptrs: seq<int>, found: seq<string>, bound: nat)
    requires Going(c, line, p, ptrs, found, bound)
    requires p == |line| || |found| == CMD_ARGC_NUM - 1
    ensures Tokens(line, CMD_ARGC_NUM - 1) == found && |ptrs| == |found|
    ensures forall k :: 0 <= k < |found| ==> HoldsString(c, ptrs[k], found[k])
  {
    NoToken(CMD_ARGC_NUM - 1 - |found|);
    if p < |line| {
      NextToken(line[p..], 0);
    }
    hide Tokens;
  }

  /** One round of the main loop; `stop` when a closing quote was missing. */
  method TakeArg(cmd: array<char>, p: nat, ghost line: string,
                 ghost ptrs: seq<int>, ghost found: seq<string>, ghost bound: nat)
    returns (at: nat, q: nat, stop: bool, ghost found': seq<string>, ghost bound': nat)
    requires p < |line| && |found| + 1 < CMD_ARGC_NUM
    requires Going(cmd[..], line, p, ptrs, found, bound)
    modifies cmd
    ensures Going(cmd[..], line, q, ptrs + [at], found', bound')
    ensures |found'| == |found| + 1 && p < q <= |line|
    ensures stop ==> q == |line|
    ensures forall k :: |line| < k < cmd.Length ==> cmd[k] == old(cmd[k])
  {
    hide Tokens, HoldsString, SkipSpaces, Untouched, Found, Front, After;
    ghost var before, u, room := cmd[..], line[p..], CMD_ARGC_NUM - 2 - |found|;
    var next;
    ghost var token;
    NextToken(u, room + 1);
    at, next, stop, token := TakeToken(cmd, p, line);
    OneMore(before, ptrs, found, bound, cmd[..], at, token);
    found' := found + [token];
    bound' := at + |token| + 1;
    assert Tokens(line, CMD_ARGC_NUM - 1) == found' + Tokens(After(u), room);
    TokensSkip(After(u), room);
    if stop {
      q := next;
      SkipNothing(line[q..]);
    } else {
      q := SkipFrom(cmd, next, line);
    }
  }

  lemma SkipNothing(s: string)
    requires s == []
    ensures SkipSpaces(s) == s
  {
  }

  /** The pointers found so far, each at its string, and all of that in front of `bound`. */
  ghost predicate Found(c: seq<char>, ptrs: seq<int>, found: seq<string>, bound: nat) {
    && |ptrs| == |found|
    && (forall k :: 0 <= k < |found| ==>
          HoldsString(c, ptrs[k], found[k]) && ptrs[k] + |found[k]| < bound)
  }

  /** Cutting off one more token leaves the strings in front of it alone. */
  lemma OneMore(c: seq<char>, ptrs: seq<int>, found: seq<string>, bound: nat,
                c': seq<char>, at: nat, token: string)
    requires Found(c, ptrs, found, bound) && bound <= at
    requires at + |token| < |c| && c' == c[at + |token| := NUL] && HoldsString(c', at, token)
    ensures Found(c', ptrs + [at], found + [token], at + |token| + 1)
  {
    forall k | 0 <= k < |found|
      ensures HoldsString(c', ptrs[k], found[k])
    {
      assert HoldsString(c, ptrs[k], found[k]);
    }
  }

  /** A white-space loop: stops at the next character of a token or at the end. */
  method SkipFrom(cmd: array<char>, start: nat, ghost line: string) returns (p: nat)
    requires start <= |line| < cmd.Length && Untouched(cmd[..], line, start)
    ensures start <= p <= |line| && line[p..] == SkipSpaces(line[start..])
    ensures line[p..] == SkipSpaces(line[p..])
    ensures Untouched(cmd[..], line, p) && (cmd[p] != NUL <==> p < |line|)
  {
    hide Untouched, SkipSpaces, IsSpace;
    p := start;
    UntouchedFrom(cmd[..], line, start, p);
    while IsSpace(cmd[p])
      invariant start <= p <= |line| && SkipSpaces(line[p..]) == SkipSpaces(line[start..])
      invariant Untouched(cmd[..], line, p) && |line| < cmd.Length
      invariant p < |line| ==> cmd[p] == line[p] != NUL
      invariant p == |line| ==> cmd[p] == NUL
      decreases |line| - p
    {
      NulIsNoSpace();
      assert line[p..][1..] == line[p + 1..];
      SkipOne(line[p..]);
      p := p + 1;
      UntouchedFrom(cmd[..], line, start, p);
    }
    SkipOne(line[p..]);
  }

  lemma NulIsNoSpace()
    ensures !IsSpace(NUL)
  {
  }

  lemma SkipOne(s: string)
    ensures SkipSpaces(s) == if s != [] && IsSpace(s[0]) then SkipSpaces(s[1..]) else s
  {
  }

  lemma UntouchedFrom(c: seq<char>, line: string, p: nat, q: nat)
    requires Untouched(c, line, p) && p <= q <= |line|
    ensures Untouched(c, line, q) && |line| < |c|
    ensures q < |line| ==> c[q] == line[q] != NUL
    ensures q == |line| ==> c[q] == NUL
  {
  }

  /** `Untouched`, at one character. */
  lemma UntouchedAt(c: seq<char>, line: string, p: nat)
    requires Untouched(c, line, p) && p < |line|
    ensures c[p] == line[p] != NUL
  {
  }

  // ----- One token -----

  /** The body of the main loop up to the white space behind the token. */
  method TakeToken(cmd: array<char>, p: nat, ghost line: string)
    returns (at: nat, next: nat, stop: bool, ghost token: string)
    requires p < |line| && Untouched(cmd[..], line, p) && line[p..] == SkipSpaces(line[p..])
    modifies cmd
    ensures token == Front(line[p..])
    ensures p <= at && at + |token| <= |line| < cmd.Length
    ensures cmd[..] == old(cmd[..])[at + |token| := NUL]
    ensures HoldsString(cmd[..], at, token)
    ensures p < next <= |line| && Untouched(cmd[..], line, next)
    ensures line[next..] == After(line[p..])
    ensures next < |line| ==> next == at + |token| + 1
    ensures stop ==> next == |line|
  {
    UntouchedAt(cmd[..], line, p);
    hide HoldsString, Untouched, After, Front;
    token := Front(line[p..]);
    if IsQuote(cmd[p]) {
      at, next, stop := TakeQuoted(cmd, p, line);
    } else {
      at, next := TakeWord(cmd, p, line);
      stop := false;
    }
  }

  /** The quoted case: the closing quote becomes the terminator. */
  method TakeQuoted(cmd: array<char>, p: nat, ghost line: string)
    returns (at: nat, next: nat, stop: bool)
    requires Untouched(cmd[..], line, p) && p < |line| && IsQuote(line[p])
    modifies cmd
    ensures var token := Front(line[p..]);
      && p <= at && at + |token| <= |line| < cmd.Length
      && cmd[..] == old(cmd[..])[at + |token| := NUL]
      && HoldsString(cmd[..], at, token)
    ensures p < next <= |line| && line[next..] == After(line[p..])
    ensures Untouched(cmd[..], line, next)
    ensures next < |line| ==> next == at + |Front(line[p..])| + 1
    ensures stop ==> next == |line|
  {
    QuotedParts(line, p);
    hide Front, After, IsQuote;
    ghost var n := |Front(line[p..])|;
    var mark := cmd[p];
    at := p + 1;
    next := at;
    while cmd[next] != NUL && cmd[next] != mark
      invariant at <= next <= at + n
      decreases at + n - next
    {
      next := next + 1;
    }
    assert next == at + n && (cmd[next] != NUL <==> next < |line|);
    CutToken(cmd[..], line, p, at, next);
    hide Untouched, HoldsString;
    stop := cmd[next] == NUL;
    if !stop {
      cmd[next] := NUL;
      next := next + 1;
    }
  }

  /** A terminator behind a token makes it a C string and leaves the rest of the line alone. */
  lemma CutToken(c: seq<char>, line: string, p: nat, at: nat, end: nat)
    requires Untouched(c, line, p) && p <= at <= end <= |line|
    ensures HoldsString(c[end := NUL], at, line[at..end])
    ensures Untouched(c[end := NUL], line, if end < |line| then end + 1 else end)
    ensures end == |line| ==> c[end := NUL] == c
  {
  }

  /** Where a quoted token ends, in terms of the whole line. */
  lemma QuotedParts(line: string, p: nat)
    requires p < |line| && IsQuote(line[p])
    ensures var n := |Front(line[p..])|; var end := p + 1 + n;
      && end <= |line| && Front(line[p..]) == line[p + 1..end]
      && (forall k :: p < k < end ==> line[k] != line[p])
      && (end < |line| ==> line[end] == line[p] && After(line[p..]) == line[end + 1..])
      && (end == |line| ==> After(line[p..]) == line[end..])
  {
    var rest := line[p..][1..];
    assert rest == line[p + 1..];
    var n := QuotedLength(rest, line[p]);
    hide QuotedLength;
    assert rest[..n] == line[p + 1..p + 1 + n];
    forall k | p < k < p + 1 + n
      ensures line[k] != line[p]
    {
      assert rest[k - (p + 1)] == line[k];
    }
  }

  /** The other case: the white space behind the word becomes the terminator. */
  method TakeWord(cmd: array<char>, p: nat, ghost line: string) returns (at: nat, next: nat)
    requires Untouched(cmd[..], line, p) && p < |line| && !IsQuote(line[p]) && !IsSpace(line[p])
    modifies cmd
    ensures var token := Front(line[p..]);
      && p <= at && at + |token| <= |line| < cmd.Length
      && cmd[..] == old(cmd[..])[at + |token| := NUL]
      && HoldsString(cmd[..], at, token)
    ensures p < next <= |line| && line[next..] == After(line[p..])
    ensures Untouched(cmd[..], line, next)
    ensures next < |line| ==> next == at + |Front(line[p..])| + 1
  {
    WordParts(line, p);
    hide Front, After, IsSpace;
    ghost var n := |Front(line[p..])|;
    at := p;
    next := at;
    while cmd[next] != NUL && !IsSpace(cmd[next])
      invariant at <= next <= at + n
      decreases at + n - next
    {
      next := next + 1;
    }
    assert next == at + n && (cmd[next] != NUL <==> next < |line|);
    CutToken(cmd[..], line, p, at, next);
    hide Untouched, HoldsString;
    if cmd[next] != NUL {
      cmd[next] := NUL;
      next := next + 1;
    }
  }

  /** Where a bare token ends, in terms of the whole line. */
  lemma WordParts(line: string, p: nat)
    requires p < |line| && !IsQuote(line[p]) && !IsSpace(line[p])
    ensures var n := |Front(line[p..])|; var end := p + n;
      && p < end <= |line| && Front(line[p..]) == line[p..end]
      && (forall k :: p <= k < end ==> !IsSpace(line[k]))
      && (end < |line| ==> IsSpace(line[end]) && After(line[p..]) == line[end + 1..])
      && (end == |line| ==> After(line[p..]) == line[end..])
  {
    var rest := line[p..];
    var n := WordLength(rest);
    assert n > 0;
    hide WordLength;
    forall k | p <= k < p + n
      ensures !IsSpace(line[k])
    {
      assert rest[k - p] == line[k];
    }
  }

  // ----- Writing a command line and parsing it -----

  /** An argument as a user types it: between quotes, or bare. */
  datatype Arg = Bare(text: string) | Quoted(mark: char, text: string)

  predicate Typable(a: Arg) {
    && NUL !in a.text
    && match a
       case Bare(text) =>
         && text != [] && text[0] != '"' && text[0] != '\''
         && forall c :: c in text ==> c !in WHITE
       case Quoted(mark, text) => (mark == '"' || mark == '\'') && mark !in text
  }

  function Typed(a: Arg): string {
    match a
    case Bare(text) => text
    case Quoted(mark, text) => [mark] + text + [mark]
  }

  /** Arguments with white space in front, between and behind. */
  function Line(args: seq<Arg>, gaps: seq<string>): string
    requires |gaps| == |args| + 1
  {
    if args == [] then gaps[0] else gaps[0] + Typed(args[0]) + Line(args[1..], gaps[1..])
  }

  predicate AllSpace(s: string) {
    forall c :: c in s ==> c in WHITE
  }

  /** The gaps are white space, and there is one behind every bare argument but the last. */
  predicate Gaps(args: seq<Arg>, gaps: seq<string>) {
    && |gaps| == |args| + 1
    && (forall i :: 0 <= i < |gaps| ==> AllSpace(gaps[i]))
    && (forall i :: 0 <= i < |args| - 1 ==> args[i].Bare? ==> gaps[i + 1] != [])
  }

  /** The texts of the first `n` arguments. */
  function Texts(args: seq<Arg>, n: nat): seq<string> {
    if args == [] || n == 0 then [] else [args[0].text] + Texts(args[1..], n - 1)
  }

  /** White space in front of a line does not matter. */
  lemma {:induction false} SkipGap(gap: string, s: string)
    requires AllSpace(gap)
    ensures SkipSpaces(gap + s) == SkipSpaces(s)
  {
    if gap == [] {
      assert gap + s == s;
    } else {
      assert (gap + s)[1..] == gap[1..] + s;
      assert gap[0] in gap;
      SkipGap(gap[1..], s);
    }
  }

  /** What is read first from a typed argument, whatever follows it properly. */
  lemma ReadTyped(a: Arg, rest: string)
    requires Typable(a) && (a.Bare? && rest != [] ==> IsSpace(rest[0]))
    ensures var u := Typed(a) + rest;
      && u != [] && u == SkipSpaces(u) && Front(u) == a.text
      && After(u) == if a.Bare? && rest != [] then rest[1..] else rest
  {
    match a {
      case Bare(text) => ReadBare(text, rest);
      case Quoted(mark, text) => ReadQuoted(mark, text, rest);
    }
    hide SkipSpaces, Front, After;
  }

  lemma ReadBare(text: string, rest: string)
    requires Typable(Bare(text)) && (rest != [] ==> IsSpace(rest[0]))
    ensures var u := text + rest;
      && u != [] && u == SkipSpaces(u) && Front(u) == text
      && After(u) == if rest != [] then rest[1..] else rest
  {
    var u := text + rest;
    assert u[0] == text[0] && text[0] in text;
    SkipOne(u);
    WordEnds(text, rest);
    assert u[..|text|] == text && u[|text|..] == rest;
    hide SkipSpaces, WordLength, QuotedLength;
  }

  lemma ReadQuoted(mark: char, text: string, rest: string)
    requires Typable(Quoted(mark, text))
    ensures var u := [mark] + text + [mark] + rest;
      && u != [] && u == SkipSpaces(u) && Front(u) == text && After(u) == rest
  {
    var u := [mark] + text + [mark] + rest;
    SkipOne(u);
    assert u[1..] == text + [mark] + rest;
    QuoteEnds(text, mark, rest);
    assert u[1..][..|text|] == text && u[1..][|text| + 1..] == rest;
    hide SkipSpaces, WordLength, QuotedLength;
  }

  lemma {:induction false} WordEnds(text: string, rest: string)
    requires (forall c :: c in text ==> !IsSpace(c)) && (rest != [] ==> IsSpace(rest[0]))
    ensures WordLength(text + rest) == |text|
  {
    if text == [] {
      assert text + rest == rest;
    } else {
      assert text[0] in text && (text + rest)[1..] == text[1..] + rest;
      WordEnds(text[1..], rest);
    }
  }

  lemma {:induction false} QuoteEnds(text: string, mark: char, rest: string)
    requires mark !in text
    ensures QuotedLength(text + [mark] + rest, mark) == |text|
  {
    var s := text + [mark] + rest;
    if text == [] {
    } else {
      assert text[0] in text && s[1..] == text[1..] + [mark] + rest;
      QuoteEnds(text[1..], mark, rest);
    }
  }

  /** Behind a bare argument the line goes on with white space or ends. */
  lemma GapFollows(args: seq<Arg>, gaps: seq<string>)
    requires args != [] && Gaps(args, gaps) && args[0].Bare?
    ensures var rest := Line(args[1..], gaps[1..]); rest != [] ==> IsSpace(rest[0])
  {
    var rest := Line(args[1..], gaps[1..]);
    assert AllSpace(gaps[1]);
    if |args| > 1 {
      assert args[0].Bare? ==> gaps[0 + 1] != [];
      assert rest[0] == gaps[1][0] && gaps[1][0] in gaps[1];
    } else {
      assert rest == gaps[1];
      if rest != [] {
        assert rest[0] in gaps[1];
      }
    }
  }

  lemma GapsRest(args: seq<Arg>, gaps: seq<string>)
    requires args != [] && Gaps(args, gaps)
    ensures Gaps(args[1..], gaps[1..]) && AllSpace(gaps[0])
  {
    forall i | 0 <= i < |args[1..]| - 1 && args[1..][i].Bare?
      ensures gaps[1..][i + 1] != []
    {
      assert args[i + 1].Bare? && gaps[(i + 1) + 1] != [];
    }
  }

  lemma FirstTokenOfLine(args: seq<Arg>, gaps: seq<string>, room: nat)
    requires args != [] && Gaps(args, gaps) && Typable(args[0])
    ensures Tokens(Line(args, gaps), room) == if room == 0 then []
      else [args[0].text] + Tokens(Line(args[1..], gaps[1..]), room - 1)
  {
    var rest := Line(args[1..], gaps[1..]);
    var u := Typed(args[0]) + rest;
    assert Line(args, gaps) == gaps[0] + u;
    GapsRest(args, gaps);
    if args[0].Bare? {
      GapFollows(args, gaps);
    }
    hide Tokens, SkipSpaces, Front, After, Typed, Typable, Line, Gaps, AllSpace;
    SkipGap(gaps[0], u);
    ReadTyped(args[0], rest);
    TokensSkip(gaps[0] + u, room);
    NextToken(u, room);
    if room > 0 && args[0].Bare? && rest != [] {
      SkipOne(rest);
      TokensSkip(rest, room - 1);
      TokensSkip(rest[1..], room - 1);
    }
  }

  /** Parsing a typed command line gives the arguments back, as many as there is room for. */
  lemma {:induction false} TokensOfLine(args: seq<Arg>, gaps: seq<string>, room: nat)
    requires |gaps| == |args| + 1 && Gaps(args, gaps)
    requires forall a :: a in args ==> Typable(a)
    ensures Tokens(Line(args, gaps), room) == Texts(args, room)
    decreases |args|
  {
    hide Tokens, Typable, Gaps;
    if args == [] {
      EmptyLine(args, gaps, room);
    } else {
      FirstTokenOfLine(args, gaps, room);
      GapsRest(args, gaps);
      hide Line;
      if room > 0 {
        TokensOfLine(args[1..], gaps[1..], room - 1);
      }
    }
  }

  lemma EmptyLine(args: seq<Arg>, gaps: seq<string>, room: nat)
    requires args == [] && |gaps| == 1 && Gaps(args, gaps)
    ensures Tokens(Line(args, gaps), room) == []
  {
    hide Tokens;
    assert AllSpace(gaps[0]) && gaps[0] + [] == gaps[0];
    SkipGap(gaps[0], []);
    TokensSkip(gaps[0], room);
    SkipNothing([]);
    NoToken(room);
  }

  /** A quotation that is never closed is one token up to the end of the line. */
  lemma UnclosedQuote(mark: char, text: string, room: nat)
    requires (mark == '"' || mark == '\'') && mark !in text && room > 0
    ensures Tokens([mark] + text, room) == [text]
  {
    var u := [mark] + text;
    SkipOne(u);
    assert u[1..] == text;
    NoMark(text, mark);
    assert Front(u) == text && After(u) == [];
    hide Tokens, Front, After, SkipSpaces;
    NextToken(u, room);
    NoToken(room - 1);
  }

  lemma {:induction false} NoMark(text: string, mark: char)
    requires mark !in text
    ensures QuotedLength(text, mark) == |text|
  {
    if text == [] {
    } else {
      assert text[0] in text;
      NoMark(text[1..], mark);
    }
  }

  /** No argument and no gap holds a terminator. */
  lemma {:induction false} NoNulInLine(args: seq<Arg>, gaps: seq<string>)
    requires Gaps(args, gaps) && forall a :: a in args ==> Typable(a)
    ensures NUL !in Line(args, gaps)
    decreases |args|
  {
    assert AllSpace(gaps[0]);
    NulIsNoSpace();
    if args == [] {
      assert Line(args, gaps) == gaps[0];
    } else {
      assert Typable(args[0]);
      GapsRest(args, gaps);
      NoNulInLine(args[1..], gaps[1..]);
      hide Gaps, IsSpace;
    }
  }

  lemma {:induction false} AllTexts(args: seq<Arg>, n: nat)
    requires |args| <= n
    ensures |Texts(args, n)| == |args|
    ensures forall k :: 0 <= k < |args| ==> Texts(args, n)[k] == args[k].text
    decreases |args|
  {
    if args == [] {
      assert Texts(args, n) == [];
    } else {
      AllTexts(args[1..], n - 1);
      assert forall k :: 0 < k < |args| ==> args[1..][k - 1] == args[k];
    }
  }

  /** Up to 24 arguments, typed as a command line and parsed in place, come back as they were. */
  method ParseTyped(cmd: array<char>, argv: array<int>, ghost args: seq<Arg>, ghost gaps: seq<string>)
    returns (argc: nat)
    requires |args| <= 24 && argv.Length == CMD_ARGC_NUM
    requires Gaps(args, gaps) && forall a :: a in args ==> Typable(a)
    requires |Line(args, gaps)| < cmd.Length
    requires cmd[..|Line(args, gaps)|] == Line(args, gaps) && cmd[|Line(args, gaps)|] == NUL
    modifies cmd, argv
    ensures argc == |args| && argv[argc] == NULL
    ensures forall k :: 0 <= k < argc ==> HoldsString(cmd[..], argv[k], args[k].text)
  {
    ghost var line := Line(args, gaps);
    NoNulInLine(args, gaps);
    TokensOfLine(args, gaps, CMD_ARGC_NUM - 1);
    AllTexts(args, CMD_ARGC_NUM - 1);
    hide Line, Gaps, Typable, Tokens, Texts, HoldsString;
    assert forall k :: 0 <= k < |line| ==> cmd[..|line|][k] == line[k] && line[k] in line;
    argc := CmdParse(cmd, argv, line);
  }
}
