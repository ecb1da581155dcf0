/** The argument printer (`inijoin`) and splitter (`split_up`) of the command
    line library, and when the second undoes the first. */
module CliText {
  import opened Text

  const SINGLE := '\''
  const DOUBLE := '\"'

  predicate IsQuote(c: char) {
    c == SINGLE || c == DOUBLE
  }

  // ------------------------------------------------------------ text primitives

  function TrimRight(s: string): string {
    if s == "" || !IsSpace(s[|s| - 1]) then s else TrimRight(s[..|s| - 1])
  }

  function Trim(s: string): string {
    SkipSpace(TrimRight(s))
  }

  /** `s.find(c)`; the length of `s` stands for npos. */
  function Find(s: string, c: char): nat {
    if s == "" || s[0] == c then 0 else 1 + Find(s[1..], c)
  }

  /** Position of the first white space, or the length. */
  function FindSpace(s: string): nat {
    if s == "" || IsSpace(s[0]) then 0 else 1 + FindSpace(s[1..])
  }

  lemma {:induction false} FindMeaning(s: string, c: char)
    ensures Find(s, c) <= |s|
    ensures forall i | 0 <= i < Find(s, c) :: s[i] != c
    ensures Find(s, c) < |s| ==> s[Find(s, c)] == c
  {
    if s != "" && s[0] != c {
      FindMeaning(s[1..], c);
      forall i | 0 <= i < Find(s, c) ensures s[i] != c {
        if i > 0 {
          assert s[i] == s[1..][i - 1];
        }
      }
    }
  }

  lemma {:induction false} FindSpaceMeaning(s: string)
    ensures FindSpace(s) <= |s|
    ensures forall i | 0 <= i < FindSpace(s) :: !IsSpace(s[i])
    ensures FindSpace(s) < |s| ==> IsSpace(s[FindSpace(s)])
  {
    if s != "" && !IsSpace(s[0]) {
      FindSpaceMeaning(s[1..]);
      forall i | 0 <= i < FindSpace(s) ensures !IsSpace(s[i]) {
        if i > 0 {
          assert s[i] == s[1..][i - 1];
        }
      }
    }
  }

  lemma {:induction false} TrimShorter(s: string)
    ensures |SkipSpace(s)| <= |s| && |TrimRight(s)| <= |s| && |Trim(s)| <= |s|
    decreases |s|
  {
    if s != "" {
      TrimShorter(s[1..]);
      TrimShorter(s[..|s| - 1]);
    }
    SkipShorter(TrimRight(s));
  }

  lemma {:induction false} SkipShorter(s: string)
    ensures |SkipSpace(s)| <= |s|
    ensures SkipSpace(s) != "" ==> !IsSpace(SkipSpace(s)[0])
  {
    if s != "" && IsSpace(s[0]) {
      SkipShorter(s[1..]);
    }
  }

  // ------------------------------------------------------------ printing

  /** One argument, quoted when it contains white space. */
  function Print(arg: string): string {
    if FindSpace(arg) == |arg| then arg
    else if DOUBLE !in arg then [DOUBLE] + arg + [DOUBLE]
    else [SINGLE] + arg + [SINGLE]
  }

  /** The arguments after the first, each behind a blank. */
  function Tail(args: seq<string>): string {
    if args == [] then "" else " " + Print(args[0]) + Tail(args[1..])
  }

  function Joined(args: seq<string>): string {
    if args == [] then "" else Print(args[0]) + Tail(args[1..])
  }

  lemma TailCons(args: seq<string>)
    requires args != []
    ensures Tail(args) == " " + Print(args[0]) + Tail(args[1..])
  {
  }

  lemma {:induction false} TailSnoc(args: seq<string>, arg: string)
    ensures Tail(args + [arg]) == Tail(args) + " " + Print(arg)
  {
    hide Print;
    if args == [] {
      assert args + [arg] == [arg] && [arg][1..] == [];
      assert " " + Print(arg) + "" == "" + " " + Print(arg);
    } else {
      hide Tail;
      var head, rest, last := " " + Print(args[0]), Tail(args[1..]), " " + Print(arg);
      TailSnoc(args[1..], arg);
      TailCons(args);
      TailCons(args + [arg]);
      assert (args + [arg])[1..] == args[1..] + [arg] && (args + [arg])[0] == args[0];
      assert head + (rest + last) == (head + rest) + last;
      assert rest + " " + Print(arg) == rest + last && head + rest + " " + Print(arg) == head + rest + last;
    }
  }

  lemma TailNone()
    ensures Tail([]) == ""
  {
  }

  lemma JoinedSnoc(args: seq<string>, i: nat)
    requires i < |args|
    ensures Joined(args[..i + 1]) == (if i > 0 then Joined(args[..i]) + " " else "") + Print(args[i])
  {
    hide Print, Tail;
    if i > 0 {
      TailSnoc(args[1..i], args[i]);
      var first, middle := Print(args[0]), Tail(args[1..i]);
      assert args[..i][1..] == args[1..i];
      assert args[..i + 1][1..] == args[1..i] + [args[i]];
      assert first + (middle + " " + Print(args[i])) == first + middle + " " + Print(args[i]);
    } else {
      TailNone();
      assert args[..1][1..] == [];
    }
  }

  method PrintArg(arg: string) returns (s: string)
    ensures s == Print(arg)
  {
    FindMeaning(arg, DOUBLE);
    if FindSpace(arg) == |arg| {
      return arg;
    } else if Find(arg, DOUBLE) == |arg| {
      return [DOUBLE] + arg + [DOUBLE];
    } else {
      return [SINGLE] + arg + [SINGLE];
    }
  }

  method Inijoin(args: seq<string>) returns (s: string)
    ensures s == Joined(args)
  {
    hide Joined;
    s := "";
    JoinedNone();
    assert args[..0] == [];
    for i := 0 to |args|
      invariant s == Joined(args[..i])
    {
      JoinedSnoc(args, i);
      if i > 0 {
        s := s + " ";
      }
      var printed := PrintArg(args[i]);
      s := s + printed;
    }
    assert args[..|args|] == args;
  }

  lemma JoinedNone()
    ensures Joined([]) == ""
  {
  }

  // ------------------------------------------------------------ splitting

  /** How a piece was delimited: by white space, by a pair of quotes, or by an
      opening quote that is never closed. */
  datatype Kind = Raw | Quoted | Open

  datatype Piece = Piece(text: string, kind: Kind)

  /** The first piece of a trimmed, non-empty text, and what is left. */
  function Take(t: string): (Piece, string)
    requires t != ""
  {
    if IsQuote(t[0]) then
      var end := Find(t[1..], t[0]);
      if end < |t| - 1 then (Piece(t[1..][..end], Quoted), t[1..][end + 1..])
      else (Piece(t[1..], Open), "")
    else
      var end := FindSpace(t);
      if end < |t| then (Piece(t[..end], Raw), t[end..]) else (Piece(t, Raw), "")
  }

  lemma TakeShorter(t: string)
    requires t != "" && !IsSpace(t[0])
    ensures |Take(t).1| < |t|
  {
    FindSpaceMeaning(t);
  }

  function Pieces(s: string): seq<Piece>
    decreases |s|
  {
    var t := Trim(s);
    if t == "" then []
    else
      TrimShorter(s);
      SkipShorter(TrimRight(s));
      TakeShorter(t);
      var (piece, rest) := Take(t);
      [piece] + Pieces(rest)
  }

  function Texts(pieces: seq<Piece>): seq<string> {
    seq(|pieces|, i requires 0 <= i < |pieces| => pieces[i].text)
  }

  /** What `split_up` returns. */
  function Split(s: string): seq<string> {
    Texts(Pieces(s))
  }

  lemma TextsCons(s: string)
    requires Trim(s) != ""
    ensures Split(s) == [Take(Trim(s)).0.text] + Split(Take(Trim(s)).1)
  {
  }

  lemma TrimmedHead(s: string)
    requires Trim(s) != ""
    ensures !IsSpace(Trim(s)[0])
  {
    SkipShorter(TrimRight(s));
  }

  lemma SplitNone(s: string)
    requires Trim(s) == ""
    ensures Split(s) == []
  {
  }

  method SplitUp(s: string) returns (output: seq<string>)
    ensures output == Split(s)
  {
    hide Trim, Find, FindSpace, Split;
    var str := Trim(s);
    output := [];
    ghost var left := s;
    while str != ""
      invariant str == Trim(left)
      invariant output + Split(left) == Split(s)
      decreases |str|
    {
      TextsCons(left);
      TrimmedHead(left);
      TakeShorter(str);
      left := Take(str).1;
      if IsQuote(str[0]) {
        var quote := str[0];
        var end := Find(str[1..], quote);
        if end < |str| - 1 {
          output := output + [str[1..][..end]];
          str := str[1..][end + 1..];
        } else {
          output := output + [str[1..]];
          str := "";
        }
      } else {
        var it := FindSpace(str);
        if it < |str| {
          output := output + [str[..it]];
          str := str[it..];
        } else {
          output := output + [str];
          str := "";
        }
      }
      TrimShorter(str);
      str := Trim(str);
    }
    SplitNone(left);
  }

  // ------------------------------------------------------------ round trip

  /** An argument that survives printing and splitting. */
  predicate Survives(arg: string) {
    if FindSpace(arg) == |arg| then arg != "" && !IsQuote(arg[0])
    else !(SINGLE in arg && DOUBLE in arg)
  }

  /** Half of it: arguments without white space are fine. */
  predicate PlainOk(arg: string) {
    FindSpace(arg) == |arg| ==> arg != "" && !IsQuote(arg[0])
  }

  lemma SkipNothing(s: string)
    requires s == "" || !IsSpace(s[0])
    ensures SkipSpace(s) == s
  {
  }

  lemma PrintEnds(arg: string)
    requires PlainOk(arg)
    ensures Print(arg) != "" && !IsSpace(Print(arg)[0]) && !IsSpace(Print(arg)[|Print(arg)| - 1])
  {
    FindSpaceMeaning(arg);
  }

  lemma {:induction false} TailEnds(args: seq<string>)
    requires forall a | a in args :: PlainOk(a)
    ensures args != [] ==> |Tail(args)| > 1 && !IsSpace(Tail(args)[|Tail(args)| - 1])
  {
    if args != [] {
      assert args[0] in args;
      PrintEnds(args[0]);
      TailEnds(args[1..]);
      assert |args| == 1 ==> Tail(args) == " " + Print(args[0]);
    }
  }

  lemma TrimKeeps(s: string)
    requires s != "" && !IsSpace(s[0]) && !IsSpace(s[|s| - 1])
    ensures Trim(s) == s && Trim(" " + s) == s
  {
    var t := " " + s;
    assert t[|t| - 1] == s[|s| - 1] && t[1..] == s;
    SkipNothing(s);
  }

  lemma FrameEnds(a: string, b: string)
    requires a != "" && !IsSpace(a[0]) && !IsSpace(a[|a| - 1])
    requires b != "" ==> !IsSpace(b[|b| - 1])
    ensures a + b != "" && !IsSpace((a + b)[0]) && !IsSpace((a + b)[|a + b| - 1])
  {
    if b != "" {
      assert (a + b)[|a + b| - 1] == b[|b| - 1];
    } else {
      assert a + b == a;
    }
  }

  /** Trimming the rest of a printed line removes exactly the blank in front. */
  lemma TailTrims(args: seq<string>)
    requires args != [] && forall a | a in args :: PlainOk(a)
    ensures Trim(Tail(args)) == Print(args[0]) + Tail(args[1..])
    ensures Trim(Joined(args)) == Joined(args)
  {
    hide Trim, Print, PlainOk;
    assert args[0] in args;
    PrintEnds(args[0]);
    TailEnds(args[1..]);
    if args[1..] == [] {
      TailNone();
    }
    var t := Print(args[0]) + Tail(args[1..]);
    FrameEnds(Print(args[0]), Tail(args[1..]));
    TrimKeeps(t);
    assert " " + Print(args[0]) + Tail(args[1..]) == " " + t;
  }

  lemma {:induction false} FindAppend(a: string, b: string, c: char)
    requires c !in a
    ensures Find(a + b, c) == |a| + Find(b, c)
  {
    if a != "" {
      assert (a + b)[1..] == a[1..] + b;
      FindAppend(a[1..], b, c);
    } else {
      assert a + b == b;
    }
  }

  lemma {:induction false} FindSpaceAppend(a: string, b: string)
    requires FindSpace(a) == |a|
    ensures FindSpace(a + b) == |a| + FindSpace(b)
  {
    if a != "" {
      assert (a + b)[1..] == a[1..] + b;
      FindSpaceAppend(a[1..], b);
    } else {
      assert a + b == b;
    }
  }

  lemma TakeQuoted(q: char, arg: string, rest: string)
    requires IsQuote(q) && q !in arg
    ensures Take([q] + arg + [q] + rest) == (Piece(arg, Quoted), rest)
  {
    var t := [q] + arg + [q] + rest;
    assert t[1..] == arg + ([q] + rest);
    FindAppend(arg, [q] + rest, q);
    assert t[1..][..|arg|] == arg && t[1..][|arg| + 1..] == rest;
  }

  lemma TakePlain(arg: string, rest: string)
    requires arg != "" && !IsQuote(arg[0]) && FindSpace(arg) == |arg|
    requires rest == "" || IsSpace(rest[0])
    ensures Take(arg + rest) == (Piece(arg, Raw), rest)
  {
    FindSpaceAppend(arg, rest);
    assert rest == "" ==> arg + rest == arg;
    assert (arg + rest)[..|arg|] == arg && (arg + rest)[|arg|..] == rest;
  }

  /** A surviving argument at the head of the line is taken off unharmed. */
  lemma TakePrinted(arg: string, args: seq<string>)
    requires Survives(arg)
    ensures Print(arg) + Tail(args) != ""
    ensures Take(Print(arg) + Tail(args)).0.text == arg && Take(Print(arg) + Tail(args)).1 == Tail(args)
  {
    if FindSpace(arg) == |arg| {
      TakePlain(arg, Tail(args));
    } else if DOUBLE !in arg {
      TakeQuoted(DOUBLE, arg, Tail(args));
    } else {
      TakeQuoted(SINGLE, arg, Tail(args));
    }
  }

  /** An argument with white space and both quotes is cut at its first single quote. */
  lemma TakeBroken(arg: string, args: seq<string>)
    requires PlainOk(arg) && !Survives(arg)
    ensures Print(arg) + Tail(args) != ""
    ensures Take(Print(arg) + Tail(args)).0.text != arg
  {
    hide Tail, TrimRight, SkipSpace, FindSpace;
    var t := Print(arg) + Tail(args);
    assert t[1..] == arg + ([SINGLE] + Tail(args));
    FindMeaning(t[1..], SINGLE);
    var k :| 0 <= k < |arg| && arg[k] == SINGLE;
    assert t[1..][k] == SINGLE;
    assert Find(t[1..], SINGLE) <= k;
  }

  lemma SplitTail(args: seq<string>)
    requires args != [] && forall a | a in args :: PlainOk(a)
    ensures Split(Tail(args)) == Split(Joined(args))
    ensures Print(args[0]) + Tail(args[1..]) != ""
    ensures var (piece, rest) := Take(Print(args[0]) + Tail(args[1..]));
      Split(Tail(args)) == [piece.text] + Split(rest)
  {
    TailTrims(args);
    PrintEnds(args[0]);
    TextsCons(Tail(args));
    TextsCons(Joined(args));
  }

  lemma SplitBlank()
    ensures Split("") == []
  {
    SplitNone("");
  }

  /** Provided the plain arguments are fine, the line splits back exactly when
      every argument survives on its own. */
  lemma {:induction false} TailRoundTrip(args: seq<string>)
    requires forall a | a in args :: PlainOk(a)
    ensures Split(Tail(args)) == args <==> forall a | a in args :: Survives(a)
  {
    hide Survives, PlainOk, Take, Print, Split, Tail;
    if args == [] {
      TailNone();
      SplitBlank();
    } else {
      SplitTail(args);
      assert args[0] in args;
      TailRoundTrip(args[1..]);
      assert args == [args[0]] + args[1..];
      if Survives(args[0]) {
        TakePrinted(args[0], args[1..]);
        assert Split(Tail(args)) == [args[0]] + Split(Tail(args[1..]));
        assert (forall a | a in args :: Survives(a)) <==> (forall a | a in args[1..] :: Survives(a));
        if Split(Tail(args)) == args {
          assert Split(Tail(args[1..])) == Split(Tail(args))[1..];
        }
      } else {
        TakeBroken(args[0], args[1..]);
        assert Split(Tail(args))[0] != args[0];
      }
    }
  }

  // ---- the converse: counting the characters that are not white space

  function Ink(s: string): nat {
    if s == "" then 0 else (if IsSpace(s[0]) then 0 else 1) + Ink(s[1..])
  }

  lemma {:induction false} InkAppend(a: string, b: string)
    ensures Ink(a + b) == Ink(a) + Ink(b)
  {
    if a == "" {
      assert a + b == b;
    } else {
      assert (a + b)[1..] == a[1..] + b;
      InkAppend(a[1..], b);
    }
  }

  lemma {:induction false} InkTrim(s: string)
    ensures Ink(Trim(s)) == Ink(s)
  {
    InkTrimRight(s);
    InkSkip(TrimRight(s));
  }

  lemma {:induction false} InkSkip(s: string)
    ensures Ink(SkipSpace(s)) == Ink(s)
  {
    if s != "" && IsSpace(s[0]) {
      InkSkip(s[1..]);
    }
  }

  lemma {:induction false} InkTrimRight(s: string)
    ensures Ink(TrimRight(s)) == Ink(s)
    decreases |s|
  {
    if s != "" && IsSpace(s[|s| - 1]) {
      InkTrimRight(s[..|s| - 1]);
      InkAppend(s[..|s| - 1], [s[|s| - 1]]);
      assert s == s[..|s| - 1] + [s[|s| - 1]];
    }
  }

  /** Quote characters a piece used up. */
  function Cost(kind: Kind): nat {
    match kind case Raw => 0 case Quoted => 2 case Open => 1
  }

  function TotalInk(pieces: seq<Piece>): nat {
    if pieces == [] then 0
    else Ink(pieces[0].text) + Cost(pieces[0].kind) + TotalInk(pieces[1..])
  }

  function PrintedInk(args: seq<string>): nat {
    if args == [] then 0
    else Ink(args[0]) + (if FindSpace(args[0]) == |args[0]| then 0 else 2) + PrintedInk(args[1..])
  }

  lemma InkPrint(arg: string)
    ensures Ink(Print(arg)) == Ink(arg) + (if FindSpace(arg) == |arg| then 0 else 2)
  {
    var q := if DOUBLE !in arg then DOUBLE else SINGLE;
    InkAppend([q] + arg, [q]);
    InkAppend([q], arg);
    assert Ink([q]) == 1;
  }

  lemma {:induction false} InkTail(args: seq<string>)
    ensures Ink(Tail(args)) == PrintedInk(args)
  {
    if args != [] {
      InkPrint(args[0]);
      InkTail(args[1..]);
      InkAppend(" " + Print(args[0]), Tail(args[1..]));
      InkAppend(" ", Print(args[0]));
      assert Ink(" ") == 0;
    }
  }

  /** Kinds as `Take` produces them: a raw piece is a non-empty word that does
      not begin with a quote. */
  ghost predicate PieceOk(p: Piece) {
    p.kind == Raw ==> p.text != "" && !IsQuote(p.text[0]) && FindSpace(p.text) == |p.text|
  }

  lemma {:induction false} FindSpacePrefix(s: string, n: nat)
    requires n <= FindSpace(s) && FindSpace(s) <= |s|
    ensures FindSpace(s[..n]) == n
  {
    if n > 0 {
      FindSpaceMeaning(s[1..]);
      FindSpacePrefix(s[1..], n - 1);
      assert s[..n][1..] == s[1..][..n - 1];
    }
  }

  /** A cut into two parts shares out the ink. */
  lemma InkCut(s: string, n: nat)
    requires n <= |s|
    ensures Ink(s) == Ink(s[..n]) + Ink(s[n..])
  {
    InkAppend(s[..n], s[n..]);
    assert s == s[..n] + s[n..];
  }

  lemma TakeInkQuoted(t: string)
    requires t != "" && IsQuote(t[0])
    ensures var (piece, rest) := Take(t);
      Ink(t) == Ink(piece.text) + Cost(piece.kind) + Ink(rest)
  {
    var u := t[1..];
    var end := Find(u, t[0]);
    FindMeaning(u, t[0]);
    assert Ink(t) == 1 + Ink(u);
    if end < |u| {
      InkCut(u, end);
      assert u[end..][1..] == u[end + 1..];
      assert Ink(u[end..]) == 1 + Ink(u[end + 1..]);
    }
  }

  lemma TakeInkPlain(t: string)
    requires t != "" && !IsQuote(t[0]) && !IsSpace(t[0])
    ensures var (piece, rest) := Take(t);
      Ink(t) == Ink(piece.text) + Cost(piece.kind) + Ink(rest) && PieceOk(piece)
  {
    FindSpaceMeaning(t);
    FindSpacePrefix(t, FindSpace(t));
    InkCut(t, FindSpace(t));
  }

  lemma TakeInk(t: string)
    requires t != "" && !IsSpace(t[0])
    ensures var (piece, rest) := Take(t);
      && Ink(t) == Ink(piece.text) + Cost(piece.kind) + Ink(rest)
      && PieceOk(piece) && (piece.kind == Open ==> rest == "")
  {
    if IsQuote(t[0]) {
      TakeInkQuoted(t);
    } else {
      TakeInkPlain(t);
    }
  }

  lemma {:induction false} PiecesInk(s: string)
    ensures Ink(s) == TotalInk(Pieces(s))
    ensures forall i | 0 <= i < |Pieces(s)| :: PieceOk(Pieces(s)[i])
    ensures forall i | 0 <= i < |Pieces(s)| - 1 :: Pieces(s)[i].kind != Open
    decreases |s|
  {
    InkTrim(s);
    var t := Trim(s);
    if t != "" {
      TrimShorter(s);
      TrimmedHead(s);
      TakeShorter(t);
      TakeInk(t);
      var (piece, rest) := Take(t);
      PiecesInk(rest);
      if rest == "" {
        PiecesNone();
      }
      assert Pieces(s) == [piece] + Pieces(rest);
      assert Pieces(s)[1..] == Pieces(rest);
    }
  }

  lemma PiecesNone()
    ensures Pieces("") == []
  {
  }

  /** If the texts come back and the ink adds up, quotes were used exactly for
      the arguments with white space: an unclosed quote would make the count odd. */
  lemma {:induction false} KindsForced(pieces: seq<Piece>, args: seq<string>, slack: int)
    requires |pieces| == |args| && forall i | 0 <= i < |args| :: pieces[i].text == args[i]
    requires forall i | 0 <= i < |pieces| :: PieceOk(pieces[i])
    requires forall i | 0 <= i < |pieces| - 1 :: pieces[i].kind != Open
    requires TotalInk(pieces) == PrintedInk(args) + slack
    requires slack <= 0 && slack % 2 == 0
    ensures slack == 0 && forall a | a in args :: PlainOk(a)
  {
    if args == [] {
      assert slack == 0;
    } else {
      var p, a := pieces[0], args[0];
      var quoted := if FindSpace(a) == |a| then 0 else 2;
      assert p.text == a;
      if |args| > 1 || p.kind != Open {
        assert Cost(p.kind) - quoted >= 0;
        forall i | 0 <= i < |args[1..]|
          ensures pieces[1..][i] == pieces[i + 1] && args[1..][i] == args[i + 1] {
        }
        KindsForced(pieces[1..], args[1..], slack - (Cost(p.kind) - quoted));
        assert args == [a] + args[1..];
      } else {
        assert false;
      }
    }
  }

  /** The exact condition under which splitting undoes printing. */
  lemma RoundTripIff(args: seq<string>)
    ensures Split(Joined(args)) == args <==> forall a | a in args :: Survives(a)
  {
    if args == [] {
      SplitBlank();
    } else {
      if Split(Joined(args)) == args {
        JoinedInk(args);
        PiecesInk(Joined(args));
        var pieces := Pieces(Joined(args));
        assert |pieces| == |Texts(pieces)| == |args|;
        forall i | 0 <= i < |args| ensures pieces[i].text == args[i] {
          assert Texts(pieces)[i] == args[i];
        }
        KindsForced(pieces, args, 0);
      }
      if forall a | a in args :: PlainOk(a) {
        SplitTail(args);
        TailRoundTrip(args);
      }
    }
  }

  lemma JoinedInk(args: seq<string>)
    ensures Ink(Joined(args)) == PrintedInk(args)
  {
    if args != [] {
      InkPrint(args[0]);
      InkTail(args[1..]);
      InkAppend(Print(args[0]), Tail(args[1..]));
    }
  }
}
