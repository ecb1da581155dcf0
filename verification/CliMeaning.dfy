/** What one turn of the command line parser does with a word, in terms of the
    strings and of the names in the definitions. */
module CliMeaning {
  import opened Text
  import opened CliWords
  import opened CliParser

  // ------------------------------------------------------------ levels

  /** `b` is `a` or reached from it by falling through. */
  ghost predicate OnChain(tree: Tree, a: nat, b: nat)
    requires TreeOk(tree) && a < |tree|
    ensures OnChain(tree, a, b) ==> b <= a
    decreases a
  {
    b == a || (tree[a].parent.Some? && tree[a].fallthrough && OnChain(tree, tree[a].parent.value, b))
  }

  /** The last level of the chain. */
  ghost predicate EndsChain(tree: Tree, a: nat, b: nat)
    requires TreeOk(tree) && a < |tree|
  {
    OnChain(tree, a, b) && !(tree[b].parent.Some? && tree[b].fallthrough)
  }

  /** `b` is `a` or one of its parents. */
  ghost predicate Above(tree: Tree, a: nat, b: nat)
    requires TreeOk(tree) && a < |tree|
    ensures Above(tree, a, b) ==> b <= a
    decreases a
  {
    b == a || (tree[a].parent.Some? && Above(tree, tree[a].parent.value, b))
  }

  // ------------------------------------------------------------ whose option it is

  ghost predicate NoneLists(d: AppDef, name: string, long: bool) {
    forall p | 0 <= p < |d.options| :: !Lists(d.options[p], name, long)
  }

  /** The option is the first with this name, at the first level that has one. */
  ghost predicate Owner(tree: Tree, a: nat, name: string, long: bool, b: nat, o: nat)
    requires TreeOk(tree) && a < |tree|
  {
    && OnChain(tree, a, b) && FirstListing(tree[b], o, name, long)
    && forall c: nat | OnChain(tree, a, c) && c > b :: NoneLists(tree[c], name, long)
  }

  ghost predicate Nobody(tree: Tree, a: nat, name: string, long: bool)
    requires TreeOk(tree) && a < |tree|
  {
    forall c: nat | OnChain(tree, a, c) :: NoneLists(tree[c], name, long)
  }

  lemma {:induction false} ReceiverOwns(tree: Tree, a: nat, name: string, long: bool)
    requires TreeOk(tree) && a < |tree|
    ensures match NamedReceiver(tree, a, name, long)
      case TakenBy(b, o) => Owner(tree, a, name, long, b, o)
      case LeftOver(b) => Nobody(tree, a, name, long) && EndsChain(tree, a, b)
    decreases a
  {
    hide FirstListing, Lists;
    FindsFirst(tree[a], name, long);
    if FindNamed(tree[a].options, name, long, 0) == |tree[a].options| && tree[a].parent.Some? && tree[a].fallthrough {
      ReceiverOwns(tree, tree[a].parent.value, name, long);
    }
  }

  /** `_parse_arg` finds that option and no other. */
  lemma OwnerIff(tree: Tree, a: nat, name: string, long: bool, b: nat, o: nat)
    requires TreeOk(tree) && a < |tree|
    ensures NamedReceiver(tree, a, name, long) == TakenBy(b, o) <==> Owner(tree, a, name, long, b, o)
    ensures NamedReceiver(tree, a, name, long).LeftOver? <==> Nobody(tree, a, name, long)
  {
    ReceiverOwns(tree, a, name, long);
    hide Lists, NamedReceiver;
    if Owner(tree, a, name, long, b, o) {
      match NamedReceiver(tree, a, name, long)
      case TakenBy(b', o') =>
        assert b == b' && o == o';
      case LeftOver(_) =>
    }
  }

  // ------------------------------------------------------------ who takes a plain word

  /** A positional that takes one more value. */
  ghost predicate HasRoom(o: OptionDef, count: nat) {
    o.pname != "" && (o.expected < 0 || count < o.expected)
  }

  ghost predicate FirstRoom(d: AppDef, s: AppState, o: nat)
    requires |d.options| == |s.results|
  {
    && o < |d.options| && HasRoom(d.options[o], |s.results[o]|)
    && forall p | 0 <= p < o :: !HasRoom(d.options[p], |s.results[p]|)
  }

  ghost predicate NoRoom(d: AppDef, s: AppState)
    requires |d.options| == |s.results|
  {
    forall p | 0 <= p < |d.options| :: !HasRoom(d.options[p], |s.results[p]|)
  }

  /** The first positional with room, at the first level that has one. */
  ghost predicate Taker(tree: Tree, apps: Apps, a: nat, b: nat, o: nat)
    requires Fits(tree, apps) && a < |tree|
  {
    && OnChain(tree, a, b) && FirstRoom(tree[b], apps[b], o)
    && forall c: nat | OnChain(tree, a, c) && c > b :: NoRoom(tree[c], apps[c])
  }

  ghost predicate NoTaker(tree: Tree, apps: Apps, a: nat)
    requires Fits(tree, apps) && a < |tree|
  {
    forall c: nat | OnChain(tree, a, c) :: NoRoom(tree[c], apps[c])
  }

  lemma {:induction false} FindsRoom(d: AppDef, s: AppState, i: nat)
    requires i <= |d.options| == |s.results| && forall p | 0 <= p < i :: !HasRoom(d.options[p], |s.results[p]|)
    ensures var o := FindHungry(d, s, i); if o < |d.options| then FirstRoom(d, s, o) else NoRoom(d, s)
    decreases |d.options| - i
  {
    if i < |d.options| && !HasRoom(d.options[i], |s.results[i]|) {
      FindsRoom(d, s, i + 1);
    }
  }

  lemma {:induction false} ReceiverTakes(tree: Tree, apps: Apps, a: nat)
    requires Fits(tree, apps) && a < |tree|
    ensures match PositionalReceiver(tree, apps, a)
      case TakenBy(b, o) => Taker(tree, apps, a, b, o)
      case LeftOver(b) => NoTaker(tree, apps, a) && EndsChain(tree, a, b)
    decreases a
  {
    hide FirstRoom, NoRoom;
    FindsRoom(tree[a], apps[a], 0);
    if FindHungry(tree[a], apps[a], 0) == |tree[a].options| && tree[a].parent.Some? && tree[a].fallthrough {
      ReceiverTakes(tree, apps, tree[a].parent.value);
    }
  }

  /** `_parse_positional` finds that positional and no other. */
  lemma TakerIff(tree: Tree, apps: Apps, a: nat, b: nat, o: nat)
    requires Fits(tree, apps) && a < |tree|
    ensures PositionalReceiver(tree, apps, a) == TakenBy(b, o) <==> Taker(tree, apps, a, b, o)
    ensures PositionalReceiver(tree, apps, a).LeftOver? <==> NoTaker(tree, apps, a)
  {
    ReceiverTakes(tree, apps, a);
    hide HasRoom, PositionalReceiver;
    if Taker(tree, apps, a, b, o) {
      match PositionalReceiver(tree, apps, a)
      case TakenBy(b', o') =>
        assert b == b' && o == o';
      case LeftOver(_) =>
    }
  }

  // ------------------------------------------------------------ subcommands

  /** A positional of a fixed number of values that still misses some. */
  ghost predicate Misses(d: AppDef, s: AppState, required: bool, p: nat)
    requires |d.options| == |s.results|
  {
    && p < |d.options| && d.options[p].pname != "" && (required ==> d.options[p].required)
    && |s.results[p]| < d.options[p].expected
  }

  lemma {:induction false} RemainingIff(d: AppDef, s: AppState, required: bool, n: nat)
    requires n <= |d.options| == |s.results|
    ensures CountRemaining(d, s, required, n) > 0 <==> exists p | 0 <= p < n :: Misses(d, s, required, p)
    decreases n
  {
    if n > 0 {
      RemainingIff(d, s, required, n - 1);
      assert Misses(d, s, required, n - 1) <==>
        d.options[n - 1].Positional() && (!required || d.options[n - 1].required) && d.options[n - 1].expected > 0
        && |s.results[n - 1]| < d.options[n - 1].expected;
    }
  }

  ghost predicate SubNamed(tree: Tree, b: nat, c: nat, name: string)
    requires b < |tree|
  {
    c in tree[b].subs && c < |tree| && SameName(tree[c].name, name, tree[c].ignoreCase)
  }

  /** Level `b` has a subcommand of this name that was not entered yet, and may
      enter one more. */
  ghost predicate OpenAt(tree: Tree, apps: Apps, b: nat, c: nat, name: string)
    requires Fits(tree, apps) && b < |tree|
  {
    && (tree[b].subMax == 0 || |apps[b].parsedSubs| < tree[b].subMax)
    && SubNamed(tree, b, c, name) && !apps[c].parsed
  }

  ghost predicate OpenSub(tree: Tree, apps: Apps, a: nat, name: string)
    requires Fits(tree, apps) && a < |tree|
  {
    exists b: nat, c: nat :: Above(tree, a, b) && OpenAt(tree, apps, b, c, name)
  }

  lemma OpenHere(tree: Tree, apps: Apps, a: nat, name: string)
    requires Fits(tree, apps) && a < |tree|
    ensures (!(tree[a].subMax != 0 && |apps[a].parsedSubs| >= tree[a].subMax) && UnparsedSub(tree, apps, tree[a].subs, name))
       <==> exists c: nat :: OpenAt(tree, apps, a, c, name)
  {
    forall c | 0 <= c < |tree| ensures tree[c].CheckName(name) <==> SameName(tree[c].name, name, tree[c].ignoreCase) {
      CheckNameIff(tree[c], name);
    }
    hide SameName, AppDef.CheckName;
    if c: nat :| OpenAt(tree, apps, a, c, name) {
      var i :| 0 <= i < |tree[a].subs| && tree[a].subs[i] == c;
    }
    if UnparsedSub(tree, apps, tree[a].subs, name) {
      var subs := tree[a].subs;
      var i :| 0 <= i < |subs| && subs[i] < |tree| && subs[i] < |apps| && tree[subs[i]].CheckName(name) && !apps[subs[i]].parsed;
      assert SubNamed(tree, a, subs[i], name);
      assert tree[a].subMax == 0 || |apps[a].parsedSubs| < tree[a].subMax ==> OpenAt(tree, apps, a, subs[i], name);
    }
  }

  lemma {:induction false} ValidSubIff(tree: Tree, apps: Apps, a: nat, name: string)
    requires Fits(tree, apps) && a < |tree|
    ensures ValidSub(tree, apps, a, name) <==> OpenSub(tree, apps, a, name)
    decreases a
  {
    OpenHere(tree, apps, a, name);
    hide UnparsedSub, OpenAt, Fits;
    if tree[a].parent.Some? {
      ValidSubIff(tree, apps, tree[a].parent.value, name);
    }
  }

  ghost predicate IsOption(word: string, long: bool) {
    exists name, more :: OptionForm(word, long, name, more)
  }

  lemma OptionIff(word: string, long: bool)
    ensures Unwrap(word, long).Some? <==> IsOption(word, long)
  {
    if Unwrap(word, long).Some? {
      UnwrapIff(word, long, Unwrap(word, long).value.0, Unwrap(word, long).value.1);
    }
    if IsOption(word, long) {
      var name, more :| OptionForm(word, long, name, more);
      UnwrapIff(word, long, name, more);
    }
  }

  /** How a word is classified. */
  lemma RecognizeIs(tree: Tree, apps: Apps, a: nat, word: string)
    requires Fits(tree, apps) && a < |tree|
    ensures Recognize(tree, apps, a, word) ==
      if word == "--" then PositionalMark
      else if OpenSub(tree, apps, a, word) then Subcommand
      else if IsOption(word, true) then Long
      else if IsOption(word, false) then Short
      else PlainArg
  {
    ValidSubIff(tree, apps, a, word);
    OptionIff(word, true);
    OptionIff(word, false);
  }

  ghost predicate FirstSub(tree: Tree, b: nat, c: nat, name: string)
    requires b < |tree|
  {
    exists i | 0 <= i < |tree[b].subs| ::
      tree[b].subs[i] == c && SubNamed(tree, b, c, name) && forall j | 0 <= j < i :: !SubNamed(tree, b, tree[b].subs[j], name)
  }

  ghost predicate NoSub(tree: Tree, b: nat, name: string)
    requires b < |tree|
  {
    forall c :: !SubNamed(tree, b, c, name)
  }

  ghost predicate MissesRequired(d: AppDef, s: AppState)
    requires |d.options| == |s.results|
  {
    exists p | 0 <= p < |d.options| :: Misses(d, s, true, p)
  }

  /** The levels below `b` neither miss a required positional nor have the subcommand. */
  ghost predicate PassedTo(tree: Tree, apps: Apps, a: nat, b: nat, name: string)
    requires Fits(tree, apps) && a < |tree|
  {
    Above(tree, a, b) && forall c: nat | Above(tree, a, c) && c > b :: !MissesRequired(tree[c], apps[c]) && NoSub(tree, c, name)
  }

  lemma {:induction false} FindsSub(tree: Tree, b: nat, subs: seq<nat>, name: string)
    requires b < |tree| && forall c | c in subs :: c in tree[b].subs
    ensures var i := FindSub(tree, subs, name);
      && i <= |subs|
      && (forall j | 0 <= j < i :: !SubNamed(tree, b, subs[j], name))
      && (i < |subs| ==> SubNamed(tree, b, subs[i], name))
    decreases |subs|
  {
    if subs != [] {
      if subs[0] < |tree| {
        CheckNameIff(tree[subs[0]], name);
      }
      assert subs[0] in tree[b].subs;
      FindsSub(tree, b, subs[1..], name);
    }
  }

  /** Which level deals with a subcommand's name: the first, from here up, that
      misses a required positional, which takes the word instead, or has it. */
  lemma {:induction false} HandlerIs(tree: Tree, apps: Apps, a: nat, name: string)
    requires Fits(tree, apps) && a < |tree|
    ensures match HandlerOf(tree, apps, a, name)
      case AsPositional(b) => PassedTo(tree, apps, a, b, name) && MissesRequired(tree[b], apps[b])
      case Enters(b, c) => PassedTo(tree, apps, a, b, name) && !MissesRequired(tree[b], apps[b]) && FirstSub(tree, b, c, name)
      case NoSuchSub => forall b: nat | Above(tree, a, b) :: !MissesRequired(tree[b], apps[b]) && NoSub(tree, b, name)
    decreases a
  {
    var d := tree[a];
    RemainingIff(d, apps[a], true, |d.options|);
    FindsSub(tree, a, d.subs, name);
    hide SubNamed, Misses, FindSub, CountRemaining;
    if !MissesRequired(d, apps[a]) && FindSub(tree, d.subs, name) == |d.subs| {
      NoneNamed(tree, a, name);
      if d.parent.Some? {
        HandlerIs(tree, apps, d.parent.value, name);
      }
    }
  }

  lemma NoneNamed(tree: Tree, b: nat, name: string)
    requires b < |tree| && forall j | 0 <= j < |tree[b].subs| :: !SubNamed(tree, b, tree[b].subs[j], name)
    ensures NoSub(tree, b, name)
  {
    forall c ensures !SubNamed(tree, b, c, name) {
      if c in tree[b].subs {
        var j :| 0 <= j < |tree[b].subs| && tree[b].subs[j] == c;
      }
    }
  }

  // ------------------------------------------------------------ how many words follow

  /** Something keeps an unlimited option of this app from eating on. */
  ghost predicate OthersWait(d: AppDef, s: AppState)
    requires |d.options| == |s.results|
  {
    exists p | 0 <= p < |d.options| :: d.options[p].pname != "" &&
      (d.options[p].expected < 0 || |s.results[p]| < d.options[p].expected)
  }

  lemma ContestedIff(tree: Tree, apps: Apps, b: nat)
    requires Fits(tree, apps) && b < |tree|
    ensures Contested(tree, apps, b) <==> OthersWait(tree[b], apps[b])
  {
    var d, s := tree[b], apps[b];
    RemainingIff(d, s, false, |d.options|);
    hide CountRemaining;
    if p :| 0 <= p < |d.options| && d.options[p].pname != "" && (d.options[p].expected < 0 || |s.results[p]| < d.options[p].expected) {
      assert d.options[p].expected < 0 || Misses(d, s, false, p);
    }
    if p :| 0 <= p < |d.options| && Misses(d, s, false, p) {
      assert d.options[p].pname != "";
    }
  }

  ghost predicate Plain(tree: Tree, apps: Apps, b: nat, word: string)
    requires Fits(tree, apps) && b < |tree|
  {
    word != "--" && !OpenSub(tree, apps, b, word) && !IsOption(word, true) && !IsOption(word, false)
  }

  ghost predicate AllPlain(tree: Tree, apps: Apps, b: nat, args: seq<string>, from: nat)
    requires Fits(tree, apps) && b < |tree|
  {
    forall i | from <= i < |args| :: Plain(tree, apps, b, args[i])
  }

  /** Of the words on the stack, the option takes the next `k`. A fixed number is
      taken whatever the words are. At least `-want` means all plain words in a row,
      but no more than that many if others wait for some. */
  ghost predicate Eats(tree: Tree, apps: Apps, b: nat, want: int, args: seq<string>, k: nat)
    requires Fits(tree, apps) && b < |tree|
  {
    && k <= |args|
    && (want >= 0 ==> (k == want || (k < want && k == |args|)))
    && (want < 0 ==>
          && AllPlain(tree, apps, b, args, |args| - k)
          && (OthersWait(tree[b], apps[b]) ==> k <= -want)
          && (k == |args| || !Plain(tree, apps, b, args[|args| - 1 - k]) || (OthersWait(tree[b], apps[b]) && k == -want)))
  }

  lemma {:induction false} PlainRunIs(tree: Tree, apps: Apps, b: nat, args: seq<string>)
    requires Fits(tree, apps) && b < |tree|
    ensures var k := PlainRun(tree, apps, b, args);
      && k <= |args| && AllPlain(tree, apps, b, args, |args| - k)
      && (k == |args| || !Plain(tree, apps, b, args[|args| - 1 - k]))
    decreases |args|
  {
    hide Fits, Recognize, Plain;
    PlainRunPop(tree, apps, b, args);
    hide PlainRun;
    if args != [] {
      PlainIff(tree, apps, b, args[|args| - 1]);
      PlainRunIs(tree, apps, b, args[..|args| - 1]);
    }
  }

  lemma PlainIff(tree: Tree, apps: Apps, b: nat, word: string)
    requires Fits(tree, apps) && b < |tree|
    ensures Recognize(tree, apps, b, word) == PlainArg <==> Plain(tree, apps, b, word)
  {
    RecognizeIs(tree, apps, b, word);
  }

  lemma AppetiteIs(tree: Tree, apps: Apps, b: nat, want: int, args: seq<string>)
    requires Fits(tree, apps) && b < |tree|
    ensures Eats(tree, apps, b, want, args, Appetite(tree, apps, b, want, args))
  {
    PlainRunIs(tree, apps, b, args);
    ContestedIff(tree, apps, b);
    hide PlainRun, Contested, Plain, OthersWait, Fits;
    var run, k := PlainRun(tree, apps, b, args), Appetite(tree, apps, b, want, args);
    if want < 0 {
      FewerPlain(tree, apps, b, args, run, k);
    }
    hide AllPlain;
  }

  lemma FewerPlain(tree: Tree, apps: Apps, b: nat, args: seq<string>, run: nat, k: nat)
    requires Fits(tree, apps) && b < |tree| && k <= run <= |args| && AllPlain(tree, apps, b, args, |args| - run)
    ensures AllPlain(tree, apps, b, args, |args| - k)
  {
    hide Fits, Plain;
  }

  // ------------------------------------------------------------ option words

  lemma {:induction false} TookRunIs(b: nat, o: nat, args: seq<string>, m: nat, at: nat)
    requires m <= |args|
    ensures |TookRun(b, o, args, m, at)| == m
    ensures forall i | 0 <= i < m :: TookRun(b, o, args, m, at)[i] == Took(b, o, args[|args| - 1 - i], at + i)
    decreases m
  {
    if m > 0 {
      TookRunIs(b, o, args, m - 1, at);
    }
  }

  /** What the parser logs of the word itself: whose option it is, and the value the
      word carries. A flag has an empty value, unless one is given with `=`. */
  ghost function OwnLog(e: int, b: nat, o: nat, long: bool, more: string, at: nat): Trace {
    [Named(b, o, at)] +
      if more != "" && (long || e != 0) then [Took(b, o, more, at)]
      else if e == 0 then [Took(b, o, "", at)]
      else []
  }

  /** How many words are wanted behind it. */
  ghost function Behind(e: int, long: bool, more: string): int {
    if more == "" || (!long && e <= 0) || e == -1 then e else e - 1
  }

  /** The log goes on with the word and the next `k` words, and the stack without
      them; when fewer than wanted are left the parser throws. */
  ghost predicate TakesWith(tree: Tree, n: nat, b: nat, o: nat, long: bool, more: string, k: nat,
                            m: Moment, err: Option<Error>, m': Moment)
    requires m.args != [] && |m.args| <= n && b < |tree| && o < |tree[b].options| && k < |m.args|
  {
    var e, below, at := tree[b].options[o].expected, m.args[..|m.args| - 1], n - |m.args|;
    && m'.log == m.log + OwnLog(e, b, o, long, more, at) + TookRun(b, o, below, k, at + 1)
    && err == (if Behind(e, long, more) > k then Some(ArgumentMismatch) else None)
    && m'.args == below[..|below| - k] + if err == None && !long && e == 0 && more != "" then ["-" + more] else []
  }

  lemma OptionTakes(tree: Tree, n: nat, long: bool, m: Moment, err: Option<Error>, m': Moment,
                    name: string, more: string, b: nat, o: nat)
    requires Fits(tree, m.apps) && m.args != [] && |m.args| <= n && b < |tree| && o < |tree[b].options|
    requires Unwrap(m.args[|m.args| - 1], long) == Some((name, more))
    requires (m'.args, err) == OptionLeft(tree, m.apps, b, o, long, m.args)
    requires m'.log == m.log + OptionEvents(tree, m.apps, b, o, long, m.args, n - |m.args|)
    ensures exists k | 0 <= k < |m.args| ::
      && Eats(tree, m.apps, b, Behind(tree[b].options[o].expected, long, more), m.args[..|m.args| - 1], k)
      && TakesWith(tree, n, b, o, long, more, k, m, err, m')
  {
    hide *;
    var opt, below, at := tree[b].options[o], m.args[..|m.args| - 1], n - |m.args|;
    var value, rest := if long then more else "", if long then "" else more;
    var want, k := Behind(opt.expected, long, more), Appetite(tree, m.apps, b, Behind(opt.expected, long, more), below);
    WordIs(opt, b, o, long, more, at);
    OptionEventsAre(tree, m.apps, b, o, long, m.args, at, value, rest);
    OptionLeaves(tree, m.apps, b, o, long, m.args, value, rest);
    AppetiteIs(tree, m.apps, b, want, below);
    JoinLog(m.log, OwnLog(opt.expected, b, o, long, more, at), TookRun(b, o, below, k, at + 1));
    TakesIs(tree, n, b, o, long, more, k, m, err, m');
  }

  lemma WordIs(opt: OptionDef, b: nat, o: nat, long: bool, more: string, at: nat)
    ensures var value, rest := if long then more else "", if long then "" else more;
      && StillWanted(opt, value, rest) == Behind(opt.expected, long, more)
      && OwnEvents(b, o, OwnValue(opt, value, rest), at) == OwnLog(opt.expected, b, o, long, more, at)
  {
  }

  lemma TakesIs(tree: Tree, n: nat, b: nat, o: nat, long: bool, more: string, k: nat, m: Moment, err: Option<Error>, m': Moment)
    requires m.args != [] && |m.args| <= n && b < |tree| && o < |tree[b].options| && k < |m.args|
    requires var e, below, at := tree[b].options[o].expected, m.args[..|m.args| - 1], n - |m.args|;
      && m'.log == m.log + OwnLog(e, b, o, long, more, at) + TookRun(b, o, below, k, at + 1)
      && (m'.args, err) ==
           if Behind(e, long, more) > k then (below[..|below| - k], Some(ArgumentMismatch))
           else if e == 0 && (if long then "" else more) != "" then (below[..|below| - k] + ["-" + more], None)
           else (below[..|below| - k], None)
    ensures TakesWith(tree, n, b, o, long, more, k, m, err, m')
  {
    hide OwnLog, TookRun, Behind;
  }

  lemma JoinLog(log: Trace, own: Trace, run: Trace)
    ensures log + own + run == log + (own + run)
  {
  }

  /** A word of the command line that names an option, with a value or not, goes to
      the first option with that name at the first level that has one, with that value. */
  lemma OptionWord(tree: Tree, n: nat, a: nat, m: Moment, err: Option<Error>, po: bool, m': Moment,
                   long: bool, name: string, more: string, b: nat, o: nat)
    requires Eventful(tree, n, a, m) && HandledSingle(tree, n, a, m, false, err, po, m')
    requires var word := m.args[|m.args| - 1];
      word != "--" && !OpenSub(tree, m.apps, a, word) && OptionForm(word, long, name, more)
    requires Owner(tree, a, name, long, b, o)
    ensures !po && o < |tree[b].options|
    ensures exists k | 0 <= k < |m.args| ::
      && Eats(tree, m.apps, b, Behind(tree[b].options[o].expected, long, more), m.args[..|m.args| - 1], k)
      && TakesWith(tree, n, b, o, long, more, k, m, err, m')
  {
    var word := m.args[|m.args| - 1];
    RecognizeIs(tree, m.apps, a, word);
    UnwrapIff(word, long, name, more);
    OnlyOneForm(word, long, name, more);
    OwnerIff(tree, a, name, long, b, o);
    hide Recognize, OpenSub, OptionForm, IsOption, Owner, NamedReceiver, Unwrap, OptionLeft, OptionEvents, Eats, TakesWith;
    assert OptionStep(tree, n, a, long, m, err, m');
    OptionTakes(tree, n, long, m, err, m', name, more, b, o);
  }

  /** A flag takes no words; but one that is given a value with `=` takes the next
      word too, if that is a plain one. */
  lemma FlagWithValue(tree: Tree, n: nat, a: nat, m: Moment, err: Option<Error>, po: bool, m': Moment,
                      name: string, more: string, b: nat, o: nat)
    requires Eventful(tree, n, a, m) && HandledSingle(tree, n, a, m, false, err, po, m')
    requires var word := m.args[|m.args| - 1]; !OpenSub(tree, m.apps, a, word) && OptionForm(word, true, name, more)
    requires Owner(tree, a, name, true, b, o) && tree[b].options[o].expected == 0
    ensures err == None
    ensures more == "" ==> m'.args == m.args[..|m.args| - 1]
    ensures more != "" && |m.args| > 1 && Plain(tree, m.apps, b, m.args[|m.args| - 2]) ==> |m'.args| < |m.args| - 1
  {
    hide *;
    EventfulFits(tree, n, a, m);
    var below := m.args[..|m.args| - 1];
    FormTells(m.args[|m.args| - 1], true, name, more);
    NoMark(m.args[|m.args| - 1], name, more);
    OptionWord(tree, n, a, m, err, po, m', true, name, more, b, o);
    OwnerAbove(tree, a, name, b, o);
    var k :| 0 <= k < |m.args| && Eats(tree, m.apps, b, Behind(0, true, more), below, k)
      && TakesWith(tree, n, b, o, true, more, k, m, err, m');
    FlagTakes(tree, n, b, o, more, k, m, err, m');
    if more == "" {
      EatsNone(tree, m.apps, b, below, k);
    }
    if more != "" && |m.args| > 1 && Plain(tree, m.apps, b, m.args[|m.args| - 2]) {
      assert below[|below| - 1] == m.args[|m.args| - 2];
      EatsSome(tree, m.apps, b, below, k);
    }
  }

  lemma EventfulFits(tree: Tree, n: nat, a: nat, m: Moment)
    requires Eventful(tree, n, a, m)
    ensures Fits(tree, m.apps) && TreeOk(tree) && |m.apps| == |tree| && a < |tree| && m.args != [] && |m.args| <= n
  {
  }

  lemma NoMark(word: string, name: string, more: string)
    requires OptionForm(word, true, name, more)
    ensures word != "--"
  {
  }

  lemma FlagTakes(tree: Tree, n: nat, b: nat, o: nat, more: string, k: nat, m: Moment, err: Option<Error>, m': Moment)
    requires m.args != [] && |m.args| <= n && b < |tree| && o < |tree[b].options| && k < |m.args|
    requires TakesWith(tree, n, b, o, true, more, k, m, err, m') && tree[b].options[o].expected == 0
    ensures Behind(0, true, more) == if more == "" then 0 else -1
    ensures err == None && m'.args == m.args[..|m.args| - 1 - k]
  {
    hide OwnLog, TookRun;
    var below := m.args[..|m.args| - 1];
    assert below[..|below| - k] + [] == m.args[..|m.args| - 1 - k];
  }

  lemma OwnerAbove(tree: Tree, a: nat, name: string, b: nat, o: nat)
    requires TreeOk(tree) && a < |tree| && Owner(tree, a, name, true, b, o)
    ensures b < |tree| && o < |tree[b].options|
  {
  }

  lemma EatsNone(tree: Tree, apps: Apps, b: nat, args: seq<string>, k: nat)
    requires Fits(tree, apps) && b < |tree| && Eats(tree, apps, b, 0, args, k)
    ensures k == 0
  {
  }

  lemma EatsSome(tree: Tree, apps: Apps, b: nat, args: seq<string>, k: nat)
    requires Fits(tree, apps) && b < |tree| && Eats(tree, apps, b, -1, args, k)
    requires args != [] && Plain(tree, apps, b, args[|args| - 1])
    ensures k > 0
  {
    hide Plain, OthersWait;
  }

  lemma FormTells(word: string, long: bool, name: string, more: string)
    requires OptionForm(word, long, name, more)
    ensures |word| > 1 && (word[1] == '-' <==> long)
  {
  }

  lemma OnlyOneForm(word: string, long: bool, name: string, more: string)
    requires OptionForm(word, long, name, more)
    ensures IsOption(word, long) && !IsOption(word, !long)
  {
    FormTells(word, long, name, more);
    var kind := !long;
    hide OptionForm;
    if IsOption(word, kind) {
      var other, rest :| OptionForm(word, kind, other, rest);
      FormTells(word, kind, other, rest);
      assert false;
    }
  }

  /** An option word that no level knows is left over at the last one. */
  lemma UnknownOption(tree: Tree, n: nat, a: nat, m: Moment, err: Option<Error>, po: bool, m': Moment,
                      long: bool, name: string, more: string)
    requires Eventful(tree, n, a, m) && HandledSingle(tree, n, a, m, false, err, po, m')
    requires var word := m.args[|m.args| - 1];
      word != "--" && !OpenSub(tree, m.apps, a, word) && OptionForm(word, long, name, more)
    requires Nobody(tree, a, name, long)
    ensures !po && err == None && m'.args == m.args[..|m.args| - 1]
    ensures exists c: nat | EndsChain(tree, a, c) ::
      m'.log == m.log + [Missed(c, if long then Long else Short, m.args[|m.args| - 1], n - |m.args|)]
  {
    var word := m.args[|m.args| - 1];
    RecognizeIs(tree, m.apps, a, word);
    UnwrapIff(word, long, name, more);
    OnlyOneForm(word, long, name, more);
    OwnerIff(tree, a, name, long, 0, 0);
    ReceiverOwns(tree, a, name, long);
    hide Recognize, OpenSub, OptionForm, IsOption, Nobody, NamedReceiver, Unwrap, Owner, EndsChain;
    assert OptionStep(tree, n, a, long, m, err, m');
    assert EndsChain(tree, a, NamedReceiver(tree, a, name, long).top);
  }

  // ------------------------------------------------------------ plain words

  lemma {:induction false} MissedRunIs(b: nat, args: seq<string>, m: nat, at: nat)
    requires m <= |args|
    ensures |MissedRun(b, args, m, at)| == m
    ensures forall i | 0 <= i < m :: MissedRun(b, args, m, at)[i] == Missed(b, PlainArg, args[|args| - 1 - i], at + i)
    decreases m
  {
    if m > 0 {
      MissedRunIs(b, args, m - 1, at);
    }
  }

  /** Nobody takes the word: it is left over at level `c`, and for a prefix command
      all that follow are, too. */
  ghost predicate Leaves(tree: Tree, n: nat, c: nat, m: Moment, m': Moment)
    requires m.args != [] && |m.args| <= n && c < |tree|
  {
    var k := if tree[c].prefixCommand then |m.args| else 1;
    && m'.args == m.args[..|m.args| - k]
    && m'.log == m.log + MissedRun(c, m.args, k, n - |m.args|)
  }

  lemma PositionalWord(tree: Tree, n: nat, a: nat, m: Moment, m': Moment)
    requires Eventful(tree, n, a, m) && PositionalStep(tree, n, a, m, m')
    ensures forall b: nat, o: nat | Taker(tree, m.apps, a, b, o) ::
      m'.args == m.args[..|m.args| - 1] && m'.log == m.log + [Took(b, o, m.args[|m.args| - 1], n - |m.args|)]
    ensures NoTaker(tree, m.apps, a) ==> exists c: nat | c < |tree| :: EndsChain(tree, a, c) && Leaves(tree, n, c, m, m')
  {
    forall b: nat, o: nat | Taker(tree, m.apps, a, b, o)
      ensures PositionalReceiver(tree, m.apps, a) == TakenBy(b, o) {
      TakerIff(tree, m.apps, a, b, o);
    }
    TakerIff(tree, m.apps, a, 0, 0);
    ReceiverTakes(tree, m.apps, a);
    hide Taker, NoTaker, PositionalReceiver, EndsChain, Fits, Recorded, MissedRun;
    if NoTaker(tree, m.apps, a) {
      assert EndsChain(tree, a, PositionalReceiver(tree, m.apps, a).top);
    }
  }

  /** A plain word, or any word behind the mark, goes to the first positional with
      room, at the first level that has one. */
  lemma PlainWord(tree: Tree, n: nat, a: nat, m: Moment, positionalOnly: bool, err: Option<Error>, po: bool, m': Moment)
    requires Eventful(tree, n, a, m) && HandledSingle(tree, n, a, m, positionalOnly, err, po, m')
    requires positionalOnly || Plain(tree, m.apps, a, m.args[|m.args| - 1])
    ensures po == positionalOnly && err == None
    ensures forall b: nat, o: nat | Taker(tree, m.apps, a, b, o) ::
      m'.args == m.args[..|m.args| - 1] && m'.log == m.log + [Took(b, o, m.args[|m.args| - 1], n - |m.args|)]
    ensures NoTaker(tree, m.apps, a) ==> exists c: nat | c < |tree| :: EndsChain(tree, a, c) && Leaves(tree, n, c, m, m')
  {
    if !positionalOnly {
      RecognizeIs(tree, m.apps, a, m.args[|m.args| - 1]);
    }
    hide Recognize, OpenSub, IsOption, PositionalStep;
    assert PositionalStep(tree, n, a, m, m');
    PositionalWord(tree, n, a, m, m');
  }

  /** The mark is left over, and ends the options. */
  lemma MarkWord(tree: Tree, n: nat, a: nat, m: Moment, err: Option<Error>, po: bool, m': Moment)
    requires Eventful(tree, n, a, m) && HandledSingle(tree, n, a, m, false, err, po, m')
    requires m.args[|m.args| - 1] == "--"
    ensures po && err == None && m'.args == m.args[..|m.args| - 1]
    ensures m'.log == m.log + [Missed(a, PositionalMark, "--", n - |m.args|)]
  {
  }

  /** The name of an open subcommand is read as a positional where a required one is
      missing, and otherwise enters the first subcommand with that name. */
  lemma SubWord(tree: Tree, n: nat, a: nat, m: Moment, err: Option<Error>, po: bool, m': Moment, word: string)
    requires Eventful(tree, n, a, m) && HandledSingle(tree, n, a, m, false, err, po, m')
    requires word == m.args[|m.args| - 1] && word != "--" && OpenSub(tree, m.apps, a, word)
    ensures !po
    ensures exists b: nat | b < |tree| && PassedTo(tree, m.apps, a, b, word) ::
      if MissesRequired(tree[b], m.apps[b]) then err == None && PositionalStep(tree, n, b, m, m')
      else exists c: nat | FirstSub(tree, b, c, word) :: m.log + [Entered(b, c, n - |m.args|)] <= m'.log
  {
    RecognizeIs(tree, m.apps, a, word);
    HandlerIs(tree, m.apps, a, word);
    hide Recognize, OpenSub, IsOption, HandlerOf, PassedTo, MissesRequired, FirstSub, PositionalStep, Recorded, Fits;
    assert HandledSub(tree, n, a, m, err, m');
    match HandlerOf(tree, m.apps, a, word)
    case AsPositional(b) =>
      assert PassedTo(tree, m.apps, a, b, word);
    case Enters(b, c) =>
      assert PassedTo(tree, m.apps, a, b, word) && FirstSub(tree, b, c, word);
  }

  // ------------------------------------------------------------ whole runs

  /** `s` is a turn of app `b`, in the loop of `a` or of a subcommand entered there. */
  ghost predicate Within(tree: Tree, a: nat, steps: seq<Step>, b: nat, s: Step)
    decreases steps
  {
    || (a == b && s in steps)
    || (exists i | 0 <= i < |steps| :: exists c: nat :: IsEntered(tree, a, steps[i], c) && Within(tree, c, steps[i].inner, b, s))
  }

  ghost predicate IsEntered(tree: Tree, a: nat, s: Step, c: nat) {
    && Fits(tree, s.before.apps) && a < |tree| && s.before.args != []
    && var word := s.before.args[|s.before.args| - 1];
       Classified(tree, s.before.apps, a, word, s.po) == Subcommand
       && HandlerOf(tree, s.before.apps, a, word).Enters? && HandlerOf(tree, s.before.apps, a, word).sub == c
  }

  /** When a subcommand starts it is listed in its app, once, and marked as parsed;
      nothing else of any app has changed. */
  lemma EntersOnce(m: Moment, b: nat, c: nat, at: nat)
    requires m.args != [] && b < |m.apps| && c < |m.apps|
    ensures var apps := Entering(m, b, c, at).apps;
      && |apps| == |m.apps| && c in apps[b].parsedSubs && apps[c].parsed
      && (c in m.apps[b].parsedSubs ==> apps[b].parsedSubs == m.apps[b].parsedSubs)
      && (c !in m.apps[b].parsedSubs ==> apps[b].parsedSubs == m.apps[b].parsedSubs + [c])
      && forall a | 0 <= a < |apps| ::
           && apps[a].results == m.apps[a].results && apps[a].missing == m.apps[a].missing
           && apps[a].parseOrder == m.apps[a].parseOrder
           && (a != b ==> apps[a].parsedSubs == m.apps[a].parsedSubs) && (a != c ==> apps[a].parsed == m.apps[a].parsed)
  {
  }

  /** So what is said of one turn holds of every turn of a run, at whatever depth. */
  lemma {:induction false} EveryTurn(tree: Tree, n: nat, a: nat, from: Moment, steps: seq<Step>, to: Moment, po: bool, b: nat, s: Step)
    requires Follows(tree, n, a, from, steps, to, po) && Within(tree, a, steps, b, s)
    ensures Eventful(tree, n, b, s.before) && HandledSingle(tree, n, b, s.before, s.po, None, s.po', s.after)
    decreases steps
  {
    hide HandledSingle, StepOk, IsEntered;
    if a == b && s in steps {
      var i :| 0 <= i < |steps| && steps[i] == s;
      OkIsHandled(tree, n, a, steps[i]);
    } else {
      var i :| 0 <= i < |steps| && exists c: nat :: IsEntered(tree, a, steps[i], c) && Within(tree, c, steps[i].inner, b, s);
      var c: nat :| IsEntered(tree, a, steps[i], c) && Within(tree, c, steps[i].inner, b, s);
      assert StepOk(tree, n, a, steps[i]);
      hide Follows, Within;
      var start, po' := EnteredFollows(tree, n, a, steps[i], c);
      EveryTurn(tree, n, c, start, steps[i].inner, steps[i].after, po', b, s);
    }
  }

  lemma OkIsHandled(tree: Tree, n: nat, a: nat, s: Step)
    requires StepOk(tree, n, a, s)
    ensures Eventful(tree, n, a, s.before) && HandledSingle(tree, n, a, s.before, s.po, None, s.po', s.after)
  {
  }

  lemma EnteredFollows(tree: Tree, n: nat, a: nat, s: Step, c: nat) returns (start: Moment, po: bool)
    requires StepOk(tree, n, a, s) && IsEntered(tree, a, s, c)
    ensures Follows(tree, n, c, start, s.inner, s.after, po)
  {
    hide HandledSingle, Follows;
    var h := HandlerOf(tree, s.before.apps, a, s.before.args[|s.before.args| - 1]);
    start := Entering(s.before, h.app, h.sub, n - |s.before.args|);
    po := Follows(tree, n, h.sub, start, s.inner, s.after, true);
  }

  /** Behind the mark every word is read as a positional, to the end of the run. */
  lemma {:induction false} AfterMark(tree: Tree, n: nat, a: nat, from: Moment, steps: seq<Step>, to: Moment, po: bool, i: nat, j: nat)
    requires Follows(tree, n, a, from, steps, to, po) && i < j < |steps|
    requires steps[i].po || (steps[i].before.args != [] && steps[i].before.args[|steps[i].before.args| - 1] == "--")
    ensures steps[j].po && Eventful(tree, n, a, steps[j].before)
    ensures PositionalStep(tree, n, a, steps[j].before, steps[j].after)
    decreases j
  {
    assert StepOk(tree, n, a, steps[j - 1]) && StepOk(tree, n, a, steps[j]);
    if i < j - 1 {
      AfterMark(tree, n, a, from, steps, to, po, i, j - 1);
    }
    hide Fits, Recorded, PositionalStep;
  }

  // ------------------------------------------------------------ the checks at the end

  /** The check the option fails first. */
  ghost predicate FailsWith(apps: Apps, o: OptionDef, count: nat, error: Error) {
    match error
    case ArgumentMismatch => (o.required || count > 0) && count < -o.expected
    case Required => o.required && count == 0 && o.expected >= 0
    case Requires => count > 0 && count >= -o.expected && exists k | 0 <= k < |o.needs| :: !Filled(apps, o.needs[k])
    case Excludes =>
      && count > 0 && count >= -o.expected
      && (forall k | 0 <= k < |o.needs| :: Filled(apps, o.needs[k]))
      && exists k | 0 <= k < |o.excludes| :: Filled(apps, o.excludes[k])
    case _ => false
  }

  /** The first option that fails one, and which. */
  lemma {:induction false} FirstFailing(d: AppDef, apps: Apps, a: nat, i: nat)
    requires a < |apps| && i <= |d.options| == |apps[a].results|
    ensures match CheckOptions(d, apps, a, i)
      case None => forall o | i <= o < |d.options| :: Satisfied(apps, d.options[o], |apps[a].results[o]|)
      case Some(error) => exists o | i <= o < |d.options| ::
        && FailsWith(apps, d.options[o], |apps[a].results[o]|, error)
        && forall p | i <= p < o :: Satisfied(apps, d.options[p], |apps[a].results[p]|)
    decreases |d.options| - i
  {
    if i < |d.options| {
      FirstFailing(d, apps, a, i + 1);
      CheckOptionsIff(d, apps, a, i);
      hide CheckOptions;
    }
  }

  /** The error of `_parse`, if its words were read. */
  lemma FinishErrorIs(d: AppDef, apps: Apps, a: nat)
    requires a < |apps| && |d.options| == |apps[a].results|
    ensures var s, error := apps[a], FinishError(d, apps, a);
      if d.help.Some? && d.help.value < |s.results| && s.results[d.help.value] != [] then error == Some(CallForHelp)
      else if exists o | 0 <= o < |d.options| :: !Satisfied(apps, d.options[o], |s.results[o]|) then
        error.Some? && exists o | 0 <= o < |d.options| ::
          && FailsWith(apps, d.options[o], |s.results[o]|, error.value)
          && forall p | 0 <= p < o :: Satisfied(apps, d.options[p], |s.results[p]|)
      else if |s.parsedSubs| < d.subMin then error == Some(Required)
      else if !d.allowExtras && !d.prefixCommand && exists i | 0 <= i < |s.missing| :: s.missing[i].0 != PositionalMark
      then error == Some(Extras)
      else error == None
  {
    FirstFailing(d, apps, a, 0);
    CheckOptionsIff(d, apps, a, 0);
    hide CheckOptions, FailsWith;
  }
}
