/** The token loop of the command line library. `App` objects become indices
    into one table, parents before their subcommands; the argument stack has its
    next word at the end, as in the original. */
module CliParser {
  import opened Text
  import opened CliWords

  datatype Classifier = PlainArg | PositionalMark | Short | Long | Subcommand

  datatype Error = Horrible | CallForHelp | ArgumentMismatch | Required | Requires | Excludes | Extras

  // ------------------------------------------------------------ definitions

  /** An option: names without dashes, a positional name or "", and the number
      of values it expects (0 for a flag, negative for at least that many). What
      it needs and excludes are options of any app, as pairs of indices. */
  datatype OptionDef = OptionDef(snames: seq<string>, lnames: seq<string>, pname: string,
                                 expected: int, required: bool, ignoreCase: bool,
                                 needs: seq<(nat, nat)>, excludes: seq<(nat, nat)>)
  {
    predicate Among(names: seq<string>, name: string) {
      if ignoreCase then exists i | 0 <= i < |names| :: ToLower(names[i]) == ToLower(name)
      else name in names
    }

    predicate Positional() {
      pname != ""
    }
  }

  datatype AppDef = AppDef(name: string, options: seq<OptionDef>, subs: seq<nat>, parent: Option<nat>,
                           ignoreCase: bool, fallthrough: bool, prefixCommand: bool, allowExtras: bool,
                           subMin: nat, subMax: nat, help: Option<nat>)
  {
    predicate CheckName(name: string) {
      if ignoreCase then ToLower(this.name) == ToLower(name) else this.name == name
    }
  }

  type Tree = seq<AppDef>

  ghost predicate TreeOk(tree: Tree) {
    forall a | 0 <= a < |tree| ::
      && (tree[a].parent.Some? ==> tree[a].parent.value < a)
      && (forall c | c in tree[a].subs :: a < c < |tree|)
  }

  /** What parsing changes in an App. */
  datatype AppState = AppState(results: seq<seq<string>>, missing: seq<(Classifier, string)>,
                               parseOrder: seq<nat>, parsedSubs: seq<nat>, parsed: bool)

  type Apps = seq<AppState>

  ghost predicate Fits(tree: Tree, apps: Apps) {
    && TreeOk(tree) && |apps| == |tree|
    && forall a | 0 <= a < |apps| :: |apps[a].results| == |tree[a].options|
  }

  // ------------------------------------------------------------ classifying

  /** Index of the first subcommand with a matching name; the length if none. */
  function FindSub(tree: Tree, subs: seq<nat>, name: string): nat {
    if subs == [] then 0
    else if subs[0] < |tree| && tree[subs[0]].CheckName(name) then 0
    else 1 + FindSub(tree, subs[1..], name)
  }

  predicate UnparsedSub(tree: Tree, apps: Apps, subs: seq<nat>, name: string) {
    exists i | 0 <= i < |subs| :: subs[i] < |tree| && subs[i] < |apps|
      && tree[subs[i]].CheckName(name) && !apps[subs[i]].parsed
  }

  /** `_valid_subcommand`: here unless the maximum is reached, or in a parent. */
  predicate ValidSub(tree: Tree, apps: Apps, a: nat, name: string)
    requires Fits(tree, apps) && a < |tree|
    decreases a
  {
    var d := tree[a];
    || (!(d.subMax != 0 && |apps[a].parsedSubs| >= d.subMax) && UnparsedSub(tree, apps, d.subs, name))
    || (d.parent.Some? && ValidSub(tree, apps, d.parent.value, name))
  }

  /** `_recognize` */
  function Recognize(tree: Tree, apps: Apps, a: nat, current: string): Classifier
    requires Fits(tree, apps) && a < |tree|
  {
    if current == "--" then PositionalMark
    else if ValidSub(tree, apps, a, current) then Subcommand
    else if SplitLong(current).Some? then Long
    else if SplitShort(current).Some? then Short
    else PlainArg
  }

  // ------------------------------------------------------------ who takes what

  /** `_count_remaining_positionals`, over the first `n` options: the last one
      that still expects values decides. */
  function CountRemaining(d: AppDef, s: AppState, required: bool, n: nat): nat
    requires n <= |d.options| == |s.results|
    decreases n
  {
    if n == 0 then 0
    else
      var o := d.options[n - 1];
      if o.Positional() && (!required || o.required) && o.expected > 0 && |s.results[n - 1]| < o.expected
      then o.expected - |s.results[n - 1]|
      else CountRemaining(d, s, required, n - 1)
  }

  /** A positional that can take one more value. */
  predicate Hungry(o: OptionDef, results: seq<string>) {
    o.Positional() && (|results| < o.expected || o.expected < 0)
  }

  /** First hungry positional from index `i`; the number of options if none. */
  function FindHungry(d: AppDef, s: AppState, i: nat): nat
    requires i <= |d.options| == |s.results|
    ensures i <= FindHungry(d, s, i) <= |d.options|
    decreases |d.options| - i
  {
    if i == |d.options| || Hungry(d.options[i], s.results[i]) then i else FindHungry(d, s, i + 1)
  }

  /** Who receives something: an option of an app, or the list of leftovers of
      the app where falling through to the parents ends. */
  datatype Receiver = TakenBy(app: nat, opt: nat) | LeftOver(top: nat)

  function PositionalReceiver(tree: Tree, apps: Apps, a: nat): (r: Receiver)
    requires Fits(tree, apps) && a < |tree|
    ensures match r case TakenBy(b, o) => b <= a && o < |tree[b].options| case LeftOver(b) => b <= a
    decreases a
  {
    var d := tree[a];
    var o := FindHungry(d, apps[a], 0);
    if o < |d.options| then TakenBy(a, o)
    else if d.parent.Some? && d.fallthrough then PositionalReceiver(tree, apps, d.parent.value)
    else LeftOver(a)
  }

  function FindNamed(options: seq<OptionDef>, name: string, long: bool, i: nat): nat
    requires i <= |options|
    ensures i <= FindNamed(options, name, long, i) <= |options|
    decreases |options| - i
  {
    if i == |options| || options[i].Among(if long then options[i].lnames else options[i].snames, name) then i
    else FindNamed(options, name, long, i + 1)
  }

  function NamedReceiver(tree: Tree, a: nat, name: string, long: bool): (r: Receiver)
    requires TreeOk(tree) && a < |tree|
    ensures match r case TakenBy(b, o) => b <= a && o < |tree[b].options| case LeftOver(b) => b <= a
    decreases a
  {
    var d := tree[a];
    var o := FindNamed(d.options, name, long, 0);
    if o < |d.options| then TakenBy(a, o)
    else if d.parent.Some? && d.fallthrough then NamedReceiver(tree, d.parent.value, name, long)
    else LeftOver(a)
  }

  /** What becomes of a word in `_parse_subcommand`. */
  datatype Handling = AsPositional(at: nat) | Enters(app: nat, sub: nat) | NoSuchSub

  function HandlerOf(tree: Tree, apps: Apps, a: nat, name: string): (h: Handling)
    requires Fits(tree, apps) && a < |tree|
    ensures h.AsPositional? ==> h.at <= a
    ensures h.Enters? ==> h.app <= a && h.sub < |tree|
    decreases a
  {
    var d := tree[a];
    FindSubBound(tree, d.subs, name);
    if CountRemaining(d, apps[a], true, |d.options|) > 0 then AsPositional(a)
    else if FindSub(tree, d.subs, name) < |d.subs| then Enters(a, d.subs[FindSub(tree, d.subs, name)])
    else if d.parent.Some? then HandlerOf(tree, apps, d.parent.value, name)
    else NoSuchSub
  }

  lemma {:induction false} FindSubBound(tree: Tree, subs: seq<nat>, name: string)
    ensures FindSub(tree, subs, name) <= |subs|
    ensures FindSub(tree, subs, name) < |subs| ==>
      var c := subs[FindSub(tree, subs, name)]; c in subs && c < |tree| && tree[c].CheckName(name)
    ensures (exists c | c in subs :: c < |tree| && tree[c].CheckName(name)) ==> FindSub(tree, subs, name) < |subs|
    decreases |subs|
  {
    if subs != [] {
      FindSubBound(tree, subs[1..], name);
      assert forall c | c in subs :: c == subs[0] || c in subs[1..];
    }
  }

  /** Classifier and handler agree: what `_recognize` calls a subcommand is
      entered or eaten, never reported as missing, at whatever level it was
      recognised and whether or not levels below have reached their maximum. */
  lemma {:induction false} ValidSubIsHandled(tree: Tree, apps: Apps, a: nat, name: string)
    requires Fits(tree, apps) && a < |tree| && ValidSub(tree, apps, a, name)
    ensures HandlerOf(tree, apps, a, name) != NoSuchSub
    decreases a
  {
    var d := tree[a];
    FindSubBound(tree, d.subs, name);
    if UnparsedSub(tree, apps, d.subs, name) {
      var i :| 0 <= i < |d.subs| && d.subs[i] < |tree| && tree[d.subs[i]].CheckName(name);
      assert d.subs[i] in d.subs;
    } else {
      ValidSubIsHandled(tree, apps, d.parent.value, name);
    }
  }

  // ------------------------------------------------------------ termination

  /** What is left to read: every word counts its characters and one more. */
  function Weight(args: seq<string>): nat {
    if args == [] then 0 else |args[|args| - 1]| + 1 + Weight(args[..|args| - 1])
  }

  lemma WeightPush(args: seq<string>, word: string)
    ensures Weight(args + [word]) == Weight(args) + |word| + 1
  {
    assert (args + [word])[..|args|] == args;
  }

  lemma {:induction false} WeightPrefix(args: seq<string>, n: nat)
    requires n <= |args|
    ensures Weight(args[..n]) <= Weight(args)
    ensures n < |args| ==> Weight(args[..n]) < Weight(args)
  {
    if n < |args| {
      var m := |args| - 1;
      WeightPrefix(args[..m], n);
      assert args[..m][..n] == args[..n];
    } else {
      assert args[..n] == args;
    }
  }

  /** Pushing the rest of a group of flags back makes less, not more, to read. */
  lemma {:induction false} PushBackShrinks(args: seq<string>)
    requires args != [] && SplitShort(args[|args| - 1]).Some?
    ensures var rest := SplitShort(args[|args| - 1]).value.1;
      Weight(args[..|args| - 1] + ["-" + rest]) < Weight(args)
  {
    WeightPush(args[..|args| - 1], "-" + SplitShort(args[|args| - 1]).value.1);
  }

  // ------------------------------------------------------------ the trace

  /** What happened to the words, in order; `at` is the position of the word on
      the command line. */
  datatype Event =
    | Named(app: nat, opt: nat, at: nat)
    | Took(app: nat, opt: nat, value: string, at: nat)
    | Missed(app: nat, how: Classifier, text: string, at: nat)
    | Entered(app: nat, sub: nat, at: nat)

  type Trace = seq<Event>

  function ResultsOf(t: Trace, a: nat, o: nat): seq<string> {
    if t == [] then []
    else
      var e := t[|t| - 1];
      ResultsOf(t[..|t| - 1], a, o) + (if e.Took? && e.app == a && e.opt == o then [e.value] else [])
  }

  function OrderOf(t: Trace, a: nat): seq<nat> {
    if t == [] then []
    else
      var e := t[|t| - 1];
      OrderOf(t[..|t| - 1], a) + (if e.Took? && e.app == a then [e.opt] else [])
  }

  function MissingOf(t: Trace, a: nat): seq<(Classifier, string)> {
    if t == [] then []
    else
      var e := t[|t| - 1];
      MissingOf(t[..|t| - 1], a) + (if e.Missed? && e.app == a then [(e.how, e.text)] else [])
  }

  /** The state of every app is what the trace says and nothing else. */
  ghost predicate Recorded(tree: Tree, apps: Apps, t: Trace)
    requires Fits(tree, apps)
  {
    && (forall a, o | 0 <= a < |apps| && 0 <= o < |apps[a].results| :: apps[a].results[o] == ResultsOf(t, a, o))
    && (forall a | 0 <= a < |apps| :: apps[a].parseOrder == OrderOf(t, a))
    && (forall a | 0 <= a < |apps| :: apps[a].missing == MissingOf(t, a))
  }

  /** Parse accounting: an option occurs in `parse_order_` as often as it has results. */
  lemma {:induction false} OrderCountsResults(t: Trace, a: nat, o: nat)
    ensures |ResultsOf(t, a, o)| == multiset(OrderOf(t, a))[o]
  {
    if t != [] {
      OrderCountsResults(t[..|t| - 1], a, o);
    }
  }

  lemma ParseOrderAgrees(tree: Tree, apps: Apps, t: Trace, a: nat, o: nat)
    requires Fits(tree, apps) && Recorded(tree, apps, t) && a < |apps| && o < |tree[a].options|
    ensures |apps[a].results[o]| == multiset(apps[a].parseOrder)[o]
  {
    OrderCountsResults(t, a, o);
  }

  /** The text is the word with some flags taken out from behind its dash. */
  ghost predicate Fragment(word: string, text: string) {
    exists k | 2 <= k < |word| :: text == "-" + word[k..]
  }

  /** What the parser can have on its stack for the word. */
  ghost predicate Shows(word: string, text: string) {
    text == word || Fragment(word, text)
  }

  /** The option has the name, among its long or its short ones. */
  ghost predicate Lists(o: OptionDef, name: string, long: bool) {
    exists other | other in (if long then o.lnames else o.snames) :: SameName(other, name, o.ignoreCase)
  }

  /** Option `o` is the first one of the app that has the name. */
  ghost predicate FirstListing(d: AppDef, o: nat, name: string, long: bool) {
    && o < |d.options| && Lists(d.options[o], name, long)
    && forall p | 0 <= p < o :: !Lists(d.options[p], name, long)
  }

  /** The word, or what flags left of it, names the option, and goes on with `more`. */
  ghost predicate Source(tree: Tree, word: string, b: nat, o: nat, text: string, name: string, long: bool, more: string) {
    Shows(word, text) && OptionForm(text, long, name, more) && b < |tree| && FirstListing(tree[b], o, name, long)
  }

  ghost predicate NamedBy(tree: Tree, word: string, b: nat, o: nat) {
    exists text, name, long, more :: Source(tree, word, b, o, text, name, long, more)
  }

  /** The value is the one that stands in the word itself; for a flag without
      one it is empty. */
  ghost predicate OwnOf(tree: Tree, word: string, b: nat, o: nat, value: string) {
    exists text, name, long, more | Source(tree, word, b, o, text, name, long, more) ::
      if more != "" && (long || tree[b].options[o].expected != 0) then value == more
      else value == "" && tree[b].options[o].expected == 0
  }

  ghost predicate HowFits(how: Classifier, text: string) {
    match how
    case Long => exists name, more :: OptionForm(text, true, name, more)
    case Short => exists name, more :: OptionForm(text, false, name, more)
    case PositionalMark => text == "--"
    case _ => true
  }

  /** The event is one that this word of the command line gives rise to. */
  ghost predicate Justified(tree: Tree, word: string, e: Event) {
    match e
    case Named(b, o, _) => NamedBy(tree, word, b, o)
    case Took(b, o, value, _) => Shows(word, value) || OwnOf(tree, word, b, o, value)
    case Missed(_, how, text, _) => Shows(word, text) && HowFits(how, text)
    case Entered(b, c, _) =>
      && b < |tree| && c < |tree| && c in tree[b].subs
      && exists text :: Shows(word, text) && SameName(tree[c].name, text, tree[c].ignoreCase)
  }

  ghost predicate Mentions(t: Trace, w: nat) {
    exists i :: 0 <= i < |t| && t[i].at == w
  }

  /** The events run through the first `k` words in order, skip none, and each is
      one that its word gives rise to. */
  ghost predicate Covers(tree: Tree, t: Trace, words: seq<string>, k: nat) {
    && k <= |words|
    && (forall i | 0 <= i < |t| :: t[i].at < k && Justified(tree, words[t[i].at], t[i]))
    && (forall i, j | 0 <= i < j < |t| :: t[i].at <= t[j].at)
    && (forall w | 0 <= w < k :: Mentions(t, w))
  }

  /** Where on the command line each result of an option comes from. */
  function PlacesOf(t: Trace, a: nat, o: nat): seq<nat> {
    if t == [] then []
    else
      var e := t[|t| - 1];
      PlacesOf(t[..|t| - 1], a, o) + (if e.Took? && e.app == a && e.opt == o then [e.at] else [])
  }

  /** The results of an option keep the order of the command line, and each is
      the word that stands at its place, or the value in that word. */
  lemma {:induction false} ResultsKeepOrder(tree: Tree, t: Trace, words: seq<string>, k: nat, a: nat, o: nat)
    requires k <= |words| && forall i | 0 <= i < |t| :: t[i].at < k && Justified(tree, words[t[i].at], t[i])
    requires forall i, j | 0 <= i < j < |t| :: t[i].at <= t[j].at
    ensures var p, r := PlacesOf(t, a, o), ResultsOf(t, a, o);
      && |p| == |r|
      && (forall i | 0 <= i < |p| :: p[i] < k && (Shows(words[p[i]], r[i]) || OwnOf(tree, words[p[i]], a, o, r[i])))
      && (forall i, j | 0 <= i < j < |p| :: p[i] <= p[j])
      && (forall i | 0 <= i < |p| :: p[i] <= t[|t| - 1].at)
  {
    hide Shows, OwnOf;
    if t != [] {
      var n := |t| - 1;
      ResultsKeepOrder(tree, t[..n], words, k, a, o);
      if n > 0 {
        assert t[..n][n - 1].at <= t[n].at;
      }
    }
  }

  lemma CoversAppend(tree: Tree, t: Trace, words: seq<string>, k: nat, e: Event)
    requires Covers(tree, t, words, k) && e.at < |words| && (e.at == k || (k > 0 && e.at == k - 1))
    requires Justified(tree, words[e.at], e)
    ensures Covers(tree, t + [e], words, e.at + 1)
  {
    hide Justified;
    var t' := t + [e];
    forall w | 0 <= w < e.at + 1 ensures Mentions(t', w) {
      if w < k {
        assert Mentions(t, w);
        var i :| 0 <= i < |t| && t[i].at == w;
        assert t'[i].at == w;
      } else {
        assert t'[|t|].at == w;
      }
    }
  }

  // ------------------------------------------------------------ steps, as events

  /** The top `m` words of the stack, the first of them at position `at`. */
  function TookRun(b: nat, o: nat, args: seq<string>, m: nat, at: nat): Trace
    requires m <= |args|
  {
    if m == 0 then [] else TookRun(b, o, args, m - 1, at) + [Took(b, o, args[|args| - m], at + m - 1)]
  }

  lemma TookMore(b: nat, o: nat, args: seq<string>, m: nat, at: nat)
    ensures TookRun(b, o, args, 0, at) == []
    ensures m < |args| ==>
      TookRun(b, o, args, m + 1, at) == TookRun(b, o, args, m, at) + [Took(b, o, args[|args| - 1 - m], at + m)]
  {
  }

  function MissedRun(b: nat, args: seq<string>, m: nat, at: nat): Trace
    requires m <= |args|
  {
    if m == 0 then [] else MissedRun(b, args, m - 1, at) + [Missed(b, PlainArg, args[|args| - m], at + m - 1)]
  }

  /** `_parse_positional`: how many words it consumes, and as what. */
  function PositionalCount(tree: Tree, apps: Apps, a: nat, args: seq<string>): nat
    requires Fits(tree, apps) && a < |tree| && args != []
  {
    match PositionalReceiver(tree, apps, a)
    case TakenBy(_, _) => 1
    case LeftOver(b) => if tree[b].prefixCommand then |args| else 1
  }

  function PositionalEvents(tree: Tree, apps: Apps, a: nat, args: seq<string>, at: nat): Trace
    requires Fits(tree, apps) && a < |tree| && args != []
  {
    match PositionalReceiver(tree, apps, a)
    case TakenBy(b, o) => [Took(b, o, args[|args| - 1], at)]
    case LeftOver(b) => MissedRun(b, args, PositionalCount(tree, apps, a, args), at)
  }

  /** The value an option finds in its own word. */
  function OwnValue(o: OptionDef, value: string, rest: string): Option<string> {
    if value != "" then Some(value)
    else if o.expected == 0 then Some("")
    else if rest != "" then Some(rest)
    else None
  }

  /** How many values it wants after that; negative means at least that many. */
  function StillWanted(o: OptionDef, value: string, rest: string): int {
    if value != "" then (if o.expected != -1 then o.expected - 1 else -1)
    else if o.expected > 0 && rest != "" then o.expected - 1
    else o.expected
  }

  /** Words in a row, from the top, that are recognised as nothing special. */
  function PlainRun(tree: Tree, apps: Apps, b: nat, args: seq<string>): nat
    requires Fits(tree, apps) && b < |tree|
    decreases |args|
  {
    if args == [] || Recognize(tree, apps, b, args[|args| - 1]) != PlainArg then 0
    else 1 + PlainRun(tree, apps, b, args[..|args| - 1])
  }

  predicate UnlimitedPositional(d: AppDef) {
    exists i | 0 <= i < |d.options| :: d.options[i].Positional() && d.options[i].expected < 0
  }

  /** Positionals that keep an unlimited option from eating on. */
  predicate Contested(tree: Tree, apps: Apps, b: nat)
    requires Fits(tree, apps) && b < |tree|
  {
    CountRemaining(tree[b], apps[b], false, |tree[b].options|) > 0 || UnlimitedPositional(tree[b])
  }

  /** How many of the following words the option takes. */
  function Appetite(tree: Tree, apps: Apps, b: nat, want: int, args: seq<string>): nat
    requires Fits(tree, apps) && b < |tree|
  {
    if want >= 0 then (if want < |args| then want else |args|)
    else if Contested(tree, apps, b) && -want < PlainRun(tree, apps, b, args) then -want
    else PlainRun(tree, apps, b, args)
  }

  lemma {:induction false} PlainRunBound(tree: Tree, apps: Apps, b: nat, args: seq<string>)
    requires Fits(tree, apps) && b < |tree|
    ensures PlainRun(tree, apps, b, args) <= |args|
    decreases |args|
  {
    if args != [] {
      PlainRunBound(tree, apps, b, args[..|args| - 1]);
    }
  }

  lemma PlainRunPop(tree: Tree, apps: Apps, b: nat, args: seq<string>)
    requires Fits(tree, apps) && b < |tree|
    ensures PlainRun(tree, apps, b, args) ==
      if args == [] || Recognize(tree, apps, b, args[|args| - 1]) != PlainArg then 0
      else 1 + PlainRun(tree, apps, b, args[..|args| - 1])
  {
  }

  /** What an option word itself amounts to. */
  function OwnEvents(b: nat, o: nat, own: Option<string>, at: nat): Trace {
    [Named(b, o, at)] + (if own.Some? then [Took(b, o, own.value, at)] else [])
  }

  function WithOwn(apps: Apps, b: nat, o: nat, own: Option<string>): Apps
    requires b < |apps| && o < |apps[b].results|
  {
    if own.Some? then WithResult(apps, b, o, own.value) else apps
  }

  /** An option word: the note, the value in the word itself, the words taken. */
  function OptionEvents(tree: Tree, apps: Apps, b: nat, o: nat, long: bool, args: seq<string>, at: nat): Trace
    requires Fits(tree, apps) && b < |tree| && o < |tree[b].options|
    requires args != [] && Unwrap(args[|args| - 1], long).Some?
  {
    var below, more := args[..|args| - 1], Unwrap(args[|args| - 1], long).value.1;
    var opt := tree[b].options[o];
    var value, rest := if long then more else "", if long then "" else more;
    var own := OwnValue(opt, value, rest);
    PlainRunBound(tree, apps, b, below);
    OwnEvents(b, o, own, at)
    + TookRun(b, o, below, Appetite(tree, apps, b, StillWanted(opt, value, rest), below), at + 1)
  }

  /** The stack it leaves, and whether values were missing. */
  function OptionLeft(tree: Tree, apps: Apps, b: nat, o: nat, long: bool, args: seq<string>)
    : (seq<string>, Option<Error>)
    requires Fits(tree, apps) && b < |tree| && o < |tree[b].options|
    requires args != [] && Unwrap(args[|args| - 1], long).Some?
  {
    var below, more := args[..|args| - 1], Unwrap(args[|args| - 1], long).value.1;
    var opt := tree[b].options[o];
    var value, rest := if long then more else "", if long then "" else more;
    var want := StillWanted(opt, value, rest);
    var m := Appetite(tree, apps, b, want, below);
    PlainRunBound(tree, apps, b, below);
    if want > m then (below[..|below| - m], Some(ArgumentMismatch))
    else if opt.expected == 0 && rest != "" then (below[..|below| - m] + ["-" + rest], None)
    else (below[..|below| - m], None)
  }

  /** `_parse_arg`: the option by that name, here or up the fallthrough chain. */
  function ArgEvents(tree: Tree, apps: Apps, a: nat, long: bool, args: seq<string>, at: nat): Trace
    requires Fits(tree, apps) && a < |tree| && args != [] && Unwrap(args[|args| - 1], long).Some?
  {
    match NamedReceiver(tree, a, Unwrap(args[|args| - 1], long).value.0, long)
    case LeftOver(b) => [Missed(b, if long then Long else Short, args[|args| - 1], at)]
    case TakenBy(b, o) => OptionEvents(tree, apps, b, o, long, args, at)
  }

  function ArgLeft(tree: Tree, apps: Apps, a: nat, long: bool, args: seq<string>): (seq<string>, Option<Error>)
    requires Fits(tree, apps) && a < |tree| && args != [] && Unwrap(args[|args| - 1], long).Some?
  {
    match NamedReceiver(tree, a, Unwrap(args[|args| - 1], long).value.0, long)
    case LeftOver(_) => (args[..|args| - 1], None)
    case TakenBy(b, o) => OptionLeft(tree, apps, b, o, long, args)
  }

  predicate Given(apps: Apps, a: nat, o: nat) {
    a < |apps| && o < |apps[a].results| && apps[a].results[o] != []
  }

  predicate LacksOther(apps: Apps, o: OptionDef) {
    exists k | 0 <= k < |o.needs| :: !Given(apps, o.needs[k].0, o.needs[k].1)
  }

  predicate ClashesWithOther(apps: Apps, o: OptionDef) {
    exists k | 0 <= k < |o.excludes| :: Given(apps, o.excludes[k].0, o.excludes[k].1)
  }

  /** The checks after the token loop, from option `i` on. */
  function CheckOptions(d: AppDef, apps: Apps, a: nat, i: nat): Option<Error>
    requires a < |apps| && i <= |d.options| == |apps[a].results|
    decreases |d.options| - i
  {
    if i == |d.options| then None
    else
      var o, count := d.options[i], |apps[a].results[i]|;
      if (o.required || count != 0) && o.expected < 0 && count < -o.expected then Some(ArgumentMismatch)
      else if o.required && count == 0 then Some(Required)
      else if count > 0 && LacksOther(apps, o) then Some(Requires)
      else if count > 0 && ClashesWithOther(apps, o) then Some(Excludes)
      else CheckOptions(d, apps, a, i + 1)
  }

  /** What the definition of an option asks of a command line. */
  ghost predicate Satisfied(apps: Apps, o: OptionDef, count: nat) {
    && (o.required ==> count > 0)
    && (count > 0 ==>
          && count >= -o.expected
          && (forall k | 0 <= k < |o.needs| :: Filled(apps, o.needs[k]))
          && (forall k | 0 <= k < |o.excludes| :: !Filled(apps, o.excludes[k])))
  }

  /** The option exists and has a result. */
  ghost predicate Filled(apps: Apps, option: (nat, nat)) {
    option.0 < |apps| && option.1 < |apps[option.0].results| && |apps[option.0].results[option.1]| > 0
  }

  lemma {:induction false} CheckOptionsIff(d: AppDef, apps: Apps, a: nat, i: nat)
    requires a < |apps| && i <= |d.options| == |apps[a].results|
    ensures CheckOptions(d, apps, a, i) == None
       <==> forall o | i <= o < |d.options| :: Satisfied(apps, d.options[o], |apps[a].results[o]|)
    ensures CheckOptions(d, apps, a, i) in
      {None, Some(ArgumentMismatch), Some(Required), Some(Requires), Some(Excludes)}
    decreases |d.options| - i
  {
    if i < |d.options| {
      CheckOptionsIff(d, apps, a, i + 1);
    }
  }

  predicate HasExtras(s: AppState) {
    exists i | 0 <= i < |s.missing| :: s.missing[i].0 != PositionalMark
  }

  function FinishError(d: AppDef, apps: Apps, a: nat): Option<Error>
    requires a < |apps| && |d.options| == |apps[a].results|
  {
    var s := apps[a];
    if d.help.Some? && d.help.value < |s.results| && s.results[d.help.value] != [] then Some(CallForHelp)
    else if CheckOptions(d, apps, a, 0).Some? then CheckOptions(d, apps, a, 0)
    else if d.subMin > |s.parsedSubs| then Some(Required)
    else if !(d.allowExtras || d.prefixCommand) && HasExtras(s) then Some(Extras)
    else None
  }

  // ------------------------------------------------------------ state updates

  function WithResult(apps: Apps, b: nat, o: nat, value: string): Apps
    requires b < |apps| && o < |apps[b].results|
  {
    var s := apps[b];
    apps[b := s.(results := s.results[o := s.results[o] + [value]], parseOrder := s.parseOrder + [o])]
  }

  function WithMissing(apps: Apps, b: nat, how: Classifier, text: string): Apps
    requires b < |apps|
  {
    apps[b := apps[b].(missing := apps[b].missing + [(how, text)])]
  }

  function WithSub(apps: Apps, b: nat, c: nat): Apps
    requires b < |apps|
  {
    var subs := apps[b].parsedSubs;
    apps[b := apps[b].(parsedSubs := if c in subs then subs else subs + [c])]
  }

  /** An app that was parsed stays parsed. */
  ghost predicate StillParsed(apps: Apps, apps': Apps) {
    |apps| == |apps'| && forall a | 0 <= a < |apps| :: apps[a].parsed ==> apps'[a].parsed
  }

  /** Nothing that classification looks at differs. */
  ghost predicate SameFlags(apps: Apps, apps': Apps) {
    && |apps| == |apps'|
    && forall a | 0 <= a < |apps| :: apps'[a].parsed == apps[a].parsed && apps'[a].parsedSubs == apps[a].parsedSubs
  }

  /** No app was entered. */
  ghost predicate SameParsed(apps: Apps, apps': Apps) {
    |apps| == |apps'| && forall a | 0 <= a < |apps| :: apps'[a].parsed == apps[a].parsed
  }

  /** Every app entered since `before` passes its final checks as things are now. */
  ghost predicate Checked(tree: Tree, before: Apps, apps: Apps) {
    && |before| == |apps| == |tree|
    && forall a | 0 <= a < |apps| && apps[a].parsed && !before[a].parsed ::
         |tree[a].options| == |apps[a].results| && FinishError(tree[a], apps, a) == None
  }

  lemma NothingNew(tree: Tree, apps: Apps)
    requires |apps| == |tree|
    ensures SameParsed(apps, apps) && Checked(tree, apps, apps)
  {
  }

  lemma FinishIsTame(d: AppDef, apps: Apps, a: nat)
    requires a < |apps| && |d.options| == |apps[a].results|
    ensures FinishError(d, apps, a) != Some(Horrible)
  {
    CheckOptionsIff(d, apps, a, 0);
  }

  lemma NothingToCheck(tree: Tree, before: Apps, apps: Apps)
    requires SameParsed(before, apps) && |apps| == |tree|
    ensures Checked(tree, before, apps)
  {
  }

  lemma FlagsParsed(apps: Apps, apps': Apps)
    requires SameFlags(apps, apps')
    ensures SameParsed(apps, apps')
  {
  }

  lemma CheckedSince(tree: Tree, before: Apps, before': Apps, apps: Apps)
    requires SameParsed(before, before') && Checked(tree, before', apps)
    ensures Checked(tree, before, apps)
  {
  }

  lemma EnteredSame(apps: Apps, b: nat, c: nat)
    requires b < |apps|
    ensures SameParsed(apps, WithSub(apps, b, c)) && |WithSub(apps, b, c)| == |apps|
  {
  }

  lemma StillSince(before: Apps, before': Apps, apps: Apps)
    requires SameParsed(before, before') && StillParsed(before', apps)
    ensures StillParsed(before, apps)
  {
  }

  lemma EmptyWeighsLess(args: seq<string>)
    requires args != []
    ensures Weight([]) < Weight(args)
  {
    WeightPrefix(args, 0);
    assert args[..0] == [];
  }

  lemma ParsedSince(apps: Apps, apps': Apps, apps'': Apps)
    requires SameParsed(apps, apps') && SameParsed(apps', apps'')
    ensures SameParsed(apps, apps'')
  {
  }

  lemma CheckedToo(tree: Tree, before: Apps, apps: Apps, a: nat)
    requires a < |before| && Checked(tree, before[a := before[a].(parsed := true)], apps)
    requires |tree[a].options| == |apps[a].results| && FinishError(tree[a], apps, a) == None
    ensures Checked(tree, before, apps)
  {
  }

  lemma ResultRecorded(tree: Tree, apps: Apps, t: Trace, b: nat, o: nat, value: string, at: nat)
    requires Fits(tree, apps) && Recorded(tree, apps, t) && b < |apps| && o < |apps[b].results|
    ensures Fits(tree, WithResult(apps, b, o, value))
    ensures Recorded(tree, WithResult(apps, b, o, value), t + [Took(b, o, value, at)])
  {
    assert (t + [Took(b, o, value, at)])[..|t|] == t;
  }

  lemma MissingRecorded(tree: Tree, apps: Apps, t: Trace, b: nat, how: Classifier, text: string, at: nat)
    requires Fits(tree, apps) && Recorded(tree, apps, t) && b < |apps|
    ensures Fits(tree, WithMissing(apps, b, how, text))
    ensures Recorded(tree, WithMissing(apps, b, how, text), t + [Missed(b, how, text, at)])
  {
    assert (t + [Missed(b, how, text, at)])[..|t|] == t;
  }

  /** Events that are only notes change no app. */
  lemma NoteRecorded(tree: Tree, apps: Apps, t: Trace, e: Event)
    requires Fits(tree, apps) && Recorded(tree, apps, t) && (e.Named? || e.Entered?)
    ensures Recorded(tree, apps, t + [e])
  {
    assert (t + [e])[..|t|] == t;
  }

  lemma FlagsRecorded(tree: Tree, apps: Apps, t: Trace, b: nat, parsed: bool, subs: seq<nat>)
    requires Fits(tree, apps) && Recorded(tree, apps, t) && b < |apps|
    ensures var apps' := apps[b := apps[b].(parsed := parsed, parsedSubs := subs)];
      Fits(tree, apps') && Recorded(tree, apps', t)
  {
  }

  lemma {:induction false} SameValidSub(tree: Tree, apps: Apps, apps': Apps, a: nat, name: string)
    requires Fits(tree, apps) && Fits(tree, apps') && SameFlags(apps, apps') && a < |tree|
    ensures ValidSub(tree, apps, a, name) == ValidSub(tree, apps', a, name)
    decreases a
  {
    if tree[a].parent.Some? {
      SameValidSub(tree, apps, apps', tree[a].parent.value, name);
    }
  }

  lemma {:induction false} SamePlainRun(tree: Tree, apps: Apps, apps': Apps, b: nat, args: seq<string>)
    requires Fits(tree, apps) && Fits(tree, apps') && SameFlags(apps, apps') && b < |tree|
    ensures PlainRun(tree, apps, b, args) == PlainRun(tree, apps', b, args)
    decreases |args|
  {
    if args != [] {
      SameValidSub(tree, apps, apps', b, args[|args| - 1]);
      SamePlainRun(tree, apps, apps', b, args[..|args| - 1]);
    }
  }

  /** Results of an option that expects no fixed number do not change the count
      of remaining positionals. */
  lemma {:induction false} SameRemaining(d: AppDef, s: AppState, s': AppState, o: nat, n: nat)
    requires n <= |d.options| == |s.results| == |s'.results| && o < |d.options| && d.options[o].expected <= 0
    requires forall i | 0 <= i < |s.results| && i != o :: s'.results[i] == s.results[i]
    ensures CountRemaining(d, s, false, n) == CountRemaining(d, s', false, n)
    decreases n
  {
    if n > 0 {
      SameRemaining(d, s, s', o, n - 1);
    }
  }

  // ------------------------------------------------------------ the parser

  /** The stack against the command line: full words, except that the top one
      may have lost some flags. */
  ghost predicate StackOk(words: seq<string>, args: seq<string>) {
    && |args| <= |words|
    && (forall i | 0 <= i < |args| - 1 :: args[i] == words[|words| - 1 - i])
    && (args != [] ==>
          Shows(words[|words| - |args|], args[|args| - 1]))
  }

  /** Words dealt with so far, counting a word whose first flags are taken. */
  ghost function Progress(words: seq<string>, args: seq<string>): nat
    requires |args| <= |words|
  {
    var at := |words| - |args|;
    if args != [] && args[|args| - 1] != words[at] then at + 1 else at
  }

  lemma StackPop(words: seq<string>, args: seq<string>, n: nat)
    requires StackOk(words, args) && n < |args|
    ensures StackOk(words, args[..n]) && Progress(words, args[..n]) == |words| - n
  {
  }

  /** Everything the parser keeps: the record, the stack and the coverage. */
  ghost predicate InOrder(tree: Tree, words: seq<string>, apps: Apps, args: seq<string>, t: Trace) {
    && Fits(tree, apps) && Recorded(tree, apps, t) && StackOk(words, args)
    && Covers(tree, t, words, Progress(words, args))
  }

  /** The top word is dealt with: its event joins the trace. */
  lemma PopCovers(tree: Tree, words: seq<string>, args: seq<string>, t: Trace, e: Event)
    requires StackOk(words, args) && args != [] && Covers(tree, t, words, Progress(words, args))
    requires e.at == |words| - |args| && Justified(tree, words[e.at], e)
    ensures StackOk(words, args[..|args| - 1]) && Progress(words, args[..|args| - 1]) == e.at + 1
    ensures Covers(tree, t + [e], words, e.at + 1)
  {
    StackPop(words, args, |args| - 1);
    hide Justified;
    CoversAppend(tree, t, words, Progress(words, args), e);
  }

  lemma OrderParts(tree: Tree, words: seq<string>, apps: Apps, args: seq<string>, t: Trace)
    requires InOrder(tree, words, apps, args, t)
    ensures Fits(tree, apps) && |apps| == |tree| && Recorded(tree, apps, t) && StackOk(words, args)
    ensures |args| <= |words| && Covers(tree, t, words, Progress(words, args))
    ensures args != [] ==> Shows(words[|words| - |args|], args[|args| - 1])
    ensures forall a | 0 <= a < |tree| :: |apps[a].results| == |tree[a].options|
  {
  }

  lemma OrderWhole(tree: Tree, words: seq<string>, apps: Apps, args: seq<string>, t: Trace)
    requires Fits(tree, apps) && Recorded(tree, apps, t) && StackOk(words, args) && |args| <= |words|
    requires Covers(tree, t, words, Progress(words, args))
    ensures InOrder(tree, words, apps, args, t)
  {
  }

  lemma TakeInOrder(tree: Tree, words: seq<string>, apps: Apps, args: seq<string>, t: Trace, b: nat, o: nat)
    requires InOrder(tree, words, apps, args, t) && args != [] && b < |tree| && o < |tree[b].options|
    ensures b < |apps| && o < |apps[b].results| && |args| <= |words|
    ensures var value := args[|args| - 1];
      InOrder(tree, words, WithResult(apps, b, o, value), args[..|args| - 1], t + [Took(b, o, value, |words| - |args|)])
  {
    hide *;
    OrderParts(tree, words, apps, args, t);
    var value := args[|args| - 1];
    var e := Took(b, o, value, |words| - |args|);
    ResultRecorded(tree, apps, t, b, o, value, e.at);
    ShownJustified(tree, words[e.at], e);
    PopCovers(tree, words, args, t, e);
    OrderWhole(tree, words, WithResult(apps, b, o, value), args[..|args| - 1], t + [e]);
  }

  lemma ShownJustified(tree: Tree, word: string, e: Event)
    requires (e.Took? && Shows(word, e.value)) || (e.Missed? && Shows(word, e.text) && HowFits(e.how, e.text))
    ensures Justified(tree, word, e)
  {
  }

  lemma NamedJustified(tree: Tree, word: string, b: nat, o: nat, at: nat)
    requires NamedBy(tree, word, b, o)
    ensures Justified(tree, word, Named(b, o, at))
  {
  }

  lemma MissInOrder(tree: Tree, words: seq<string>, apps: Apps, args: seq<string>, t: Trace, b: nat, how: Classifier)
    requires InOrder(tree, words, apps, args, t) && args != [] && b < |tree| && HowFits(how, args[|args| - 1])
    ensures b < |apps| && |args| <= |words|
    ensures var text := args[|args| - 1];
      InOrder(tree, words, WithMissing(apps, b, how, text), args[..|args| - 1], t + [Missed(b, how, text, |words| - |args|)])
  {
    hide *;
    OrderParts(tree, words, apps, args, t);
    var text := args[|args| - 1];
    var e := Missed(b, how, text, |words| - |args|);
    MissingRecorded(tree, apps, t, b, how, text, e.at);
    ShownJustified(tree, words[e.at], e);
    PopCovers(tree, words, args, t, e);
    OrderWhole(tree, words, WithMissing(apps, b, how, text), args[..|args| - 1], t + [e]);
  }

  lemma NoteInOrder(tree: Tree, words: seq<string>, apps: Apps, args: seq<string>, t: Trace, e: Event)
    requires InOrder(tree, words, apps, args, t) && args != [] && (e.Named? || e.Entered?)
    requires |args| <= |words| && e.at == |words| - |args| && Justified(tree, words[e.at], e)
    ensures InOrder(tree, words, apps, args[..|args| - 1], t + [e])
    ensures Progress(words, args[..|args| - 1]) == e.at + 1
  {
    hide *;
    OrderParts(tree, words, apps, args, t);
    NoteRecorded(tree, apps, t, e);
    PopCovers(tree, words, args, t, e);
    OrderWhole(tree, words, apps, args[..|args| - 1], t + [e]);
  }

  lemma OwnInOrder(tree: Tree, words: seq<string>, apps: Apps, args: seq<string>, t: Trace, b: nat, o: nat, value: string)
    requires InOrder(tree, words, apps, args, t) && b < |tree| && o < |tree[b].options|
    requires Progress(words, args) == |words| - |args| > 0 && OwnOf(tree, words[|words| - |args| - 1], b, o, value)
    ensures InOrder(tree, words, WithResult(apps, b, o, value), args, t + [Took(b, o, value, |words| - |args| - 1)])
  {
    ResultRecorded(tree, apps, t, b, o, value, |words| - |args| - 1);
    hide Recorded, Covers, OwnOf, StackOk, Progress;
    CoversAppend(tree, t, words, |words| - |args|, Took(b, o, value, |words| - |args| - 1));
  }

  lemma FlagsInOrder(tree: Tree, words: seq<string>, apps: Apps, args: seq<string>, t: Trace,
                     b: nat, parsed: bool, subs: seq<nat>)
    requires InOrder(tree, words, apps, args, t) && b < |apps|
    ensures InOrder(tree, words, apps[b := apps[b].(parsed := parsed, parsedSubs := subs)], args, t)
  {
    FlagsRecorded(tree, apps, t, b, parsed, subs);
  }

  /** The name of a subcommand is dealt with and listed. */
  lemma EnterInOrder(tree: Tree, words: seq<string>, apps: Apps, args: seq<string>, t: Trace, b: nat, c: nat)
    requires InOrder(tree, words, apps, args, t) && args != [] && b < |tree| && c < |tree|
    requires c in tree[b].subs && SameName(tree[c].name, args[|args| - 1], tree[c].ignoreCase)
    ensures InOrder(tree, words, WithSub(apps, b, c), args[..|args| - 1], t + [Entered(b, c, |words| - |args|)])
  {
    var e := Entered(b, c, |words| - |args|);
    assert Justified(tree, words[e.at], e);
    hide SameName, Shows, Justified;
    NoteInOrder(tree, words, apps, args, t, e);
    FlagsInOrder(tree, words, apps, args[..|args| - 1], t + [e], b, apps[b].parsed, WithSub(apps, b, c)[b].parsedSubs);
  }

  /** What `_parse_arg` does to the stack and logs; without an option word on top
      it throws and does nothing. */
  ghost predicate HandledArg(tree: Tree, apps: Apps, a: nat, long: bool, args: seq<string>, at: nat, left: seq<string>,
                             err: Option<Error>, before: Trace, t: Trace)
    requires Fits(tree, apps) && a < |tree| && args != []
  {
    if Unwrap(args[|args| - 1], long).None? then err == Some(Horrible) && left == args && t == before
    else
      && (left, err) == ArgLeft(tree, apps, a, long, args)
      && t == before + ArgEvents(tree, apps, a, long, args, at)
  }

  /** The parser at one moment. */
  datatype Moment = Moment(apps: Apps, args: seq<string>, log: Trace)

  ghost predicate Eventful(tree: Tree, n: nat, a: nat, m: Moment) {
    && Fits(tree, m.apps) && Recorded(tree, m.apps, m.log)
    && a < |tree| && m.args != [] && |m.args| <= n
  }

  ghost predicate PositionalStep(tree: Tree, n: nat, b: nat, m: Moment, m': Moment)
    requires Eventful(tree, n, b, m)
  {
    var k := PositionalCount(tree, m.apps, b, m.args);
    && k <= |m.args| && m'.args == m.args[..|m.args| - k] && SameFlags(m.apps, m'.apps)
    && m'.log == m.log + PositionalEvents(tree, m.apps, b, m.args, n - |m.args|)
  }

  ghost predicate OptionStep(tree: Tree, n: nat, a: nat, long: bool, m: Moment, err: Option<Error>, m': Moment)
    requires Eventful(tree, n, a, m) && Unwrap(m.args[|m.args| - 1], long).Some?
  {
    && (m'.args, err) == ArgLeft(tree, m.apps, a, long, m.args) && SameFlags(m.apps, m'.apps)
    && m'.log == m.log + ArgEvents(tree, m.apps, a, long, m.args, n - |m.args|)
  }

  ghost predicate HandledSub(tree: Tree, n: nat, a: nat, m: Moment, err: Option<Error>, m': Moment)
    requires Eventful(tree, n, a, m)
  {
    match HandlerOf(tree, m.apps, a, m.args[|m.args| - 1])
    case AsPositional(b) => err == None && PositionalStep(tree, n, b, m, m')
    case Enters(b, c) => m.log + [Entered(b, c, n - |m.args|)] <= m'.log && (err.None? ==> m'.args == [])
    case NoSuchSub => err == Some(Horrible) && m'.args == m.args && m'.log == m.log
  }

  /** The word on top reaches the handler of its class. */
  ghost predicate HandledSingle(tree: Tree, n: nat, a: nat, m: Moment, positionalOnly: bool,
                                err: Option<Error>, po: bool, m': Moment)
    requires Eventful(tree, n, a, m)
  {
    var word, at := m.args[|m.args| - 1], n - |m.args|;
    match Classified(tree, m.apps, a, word, positionalOnly)
    case PositionalMark =>
      && err == None && po && m'.args == m.args[..|m.args| - 1] && SameFlags(m.apps, m'.apps)
      && m'.log == m.log + [Missed(a, PositionalMark, "--", at)]
    case Subcommand =>
      && po == positionalOnly
      && HandlerOf(tree, m.apps, a, word) != NoSuchSub && HandledSub(tree, n, a, m, err, m')
    case Long => po == positionalOnly && OptionStep(tree, n, a, true, m, err, m')
    case Short => po == positionalOnly && OptionStep(tree, n, a, false, m, err, m')
    case PlainArg => po == positionalOnly && err == None && PositionalStep(tree, n, a, m, m')
  }

  /** One turn of the loop of `_parse`; `inner` are the turns of the subcommand,
      if it enters one. */
  datatype Step = Step(before: Moment, po: bool, after: Moment, po': bool, inner: seq<Step>)

  function Marked(apps: Apps, a: nat): Apps
    requires a < |apps|
  {
    apps[a := apps[a].(parsed := true)]
  }

  /** The moment at which subcommand `c` starts, entered from `b`. */
  function Entering(m: Moment, b: nat, c: nat, at: nat): Moment
    requires m.args != [] && b < |m.apps| && c < |m.apps|
  {
    Moment(Marked(WithSub(m.apps, b, c), c), m.args[..|m.args| - 1], m.log + [Entered(b, c, at)])
  }

  /** The turns lead from one moment to the other: each starts where the one before
      ended. */
  ghost predicate Follows(tree: Tree, n: nat, a: nat, from: Moment, steps: seq<Step>, to: Moment, po: bool)
    decreases steps, 0
  {
    && (if steps == [] then to == from && !po
        else steps[0].before == from && !steps[0].po && steps[|steps| - 1].after == to && steps[|steps| - 1].po' == po)
    && (forall i, j | 0 <= i && j == i + 1 < |steps| :: steps[i].after == steps[j].before && steps[i].po' == steps[j].po)
    && (forall i | 0 <= i < |steps| :: StepOk(tree, n, a, steps[i]))
  }

  /** The turn hands the word on top to the handler of its class, and a subcommand
      that is entered reads all that is left. */
  ghost predicate StepOk(tree: Tree, n: nat, a: nat, s: Step)
    decreases s
  {
    && Eventful(tree, n, a, s.before)
    && HandledSingle(tree, n, a, s.before, s.po, None, s.po', s.after)
    && var word := s.before.args[|s.before.args| - 1];
       (Classified(tree, s.before.apps, a, word, s.po) == Subcommand ==>
          FollowsSub(tree, n, HandlerOf(tree, s.before.apps, a, word), s.before, s.inner, s.after))
  }

  ghost predicate FollowsSub(tree: Tree, n: nat, h: Handling, m: Moment, inner: seq<Step>, m': Moment)
    decreases inner, 1
  {
    h.Enters? ==>
      && m.args != [] && |m.args| <= n && h.app < |m.apps| && h.sub < |m.apps| && m'.args == []
      && var from := Entering(m, h.app, h.sub, n - |m.args|);
         (Follows(tree, n, h.sub, from, inner, m', true) || Follows(tree, n, h.sub, from, inner, m', false))
  }

  lemma EnteringIs(m: Moment, b: nat, c: nat, at: nat)
    requires m.args != [] && b < |m.apps| && c < |m.apps|
    ensures c < |WithSub(m.apps, b, c)|
    ensures Entering(m, b, c, at) ==
      Moment(Marked(WithSub(m.apps, b, c), c), m.args[..|m.args| - 1], m.log + [Entered(b, c, at)])
  {
  }

  lemma SubFollows(tree: Tree, n: nat, b: nat, c: nat, m: Moment, inner: seq<Step>, m': Moment, po: bool)
    requires m.args != [] && |m.args| <= n && b < |m.apps| && c < |m.apps| && m'.args == []
    requires Follows(tree, n, c, Entering(m, b, c, n - |m.args|), inner, m', po)
    ensures FollowsSub(tree, n, Enters(b, c), m, inner, m')
  {
    hide Follows;
  }

  lemma StartFollows(tree: Tree, n: nat, a: nat, m: Moment)
    ensures Follows(tree, n, a, m, [], m, false)
  {
  }

  lemma FollowsSnoc(tree: Tree, n: nat, a: nat, from: Moment, steps: seq<Step>, s: Step)
    requires Follows(tree, n, a, from, steps, s.before, s.po) && StepOk(tree, n, a, s)
    ensures Follows(tree, n, a, from, steps + [s], s.after, s.po')
  {
    hide StepOk;
  }

  class Parser {
    const tree: Tree
    const words: seq<string>      // the command line
    var apps: Apps
    var args: seq<string>         // the words left, next one last
    ghost var trace: Trace

    ghost predicate Ready()
      reads this
    {
      InOrder(tree, words, apps, args, trace)
    }

    ghost function Now(): Moment
      reads this
    {
      Moment(apps, args, trace)
    }

    /** What is left of the guarantees once an error has been thrown. */
    ghost predicate Logged()
      reads `apps, `trace
    {
      Fits(tree, apps) && Recorded(tree, apps, trace)
    }

    /** A fresh parser for a command line. */
    constructor (tree: Tree, words: seq<string>)
      requires TreeOk(tree)
      ensures this.tree == tree && this.words == words && Ready() && trace == []
      ensures forall a | 0 <= a < |apps| :: !apps[a].parsed
      ensures |args| == |words| && forall i | 0 <= i < |words| :: args[i] == words[|words| - 1 - i]
    {
      this.tree := tree;
      this.words := words;
      apps := seq(|tree|, a requires 0 <= a < |tree| =>
        AppState(seq(|tree[a].options|, _ => []), [], [], [], false));
      args := seq(|words|, i requires 0 <= i < |words| => words[|words| - 1 - i]);
      trace := [];
    }

    /** `_parse_positional` */
    method ParsePositional(a: nat)
      requires Ready() && a < |tree| && args != []
      modifies this
      ensures Ready() && SameFlags(old(apps), apps)
      ensures var n := PositionalCount(tree, old(apps), a, old(args));
        0 < n <= |old(args)| && args == old(args)[..|old(args)| - n]
      ensures trace == old(trace) + PositionalEvents(tree, old(apps), a, old(args), |words| - |old(args)|)
      ensures PositionalStep(tree, |words|, a, old(Now()), Now())
      decreases a
    {
      hide InOrder, FindHungry, MissedRun;
      ReadyFits();
      var positional := args[|args| - 1];
      var o := FindHungry(tree[a], apps[a], 0);
      if o < |tree[a].options| {
        TakeTop(a, o);
      } else if tree[a].parent.Some? && tree[a].fallthrough {
        ParsePositional(tree[a].parent.value);
      } else {
        LeaveOver(a);
      }
    }

    /** Nobody wants the word; a prefix command swallows all that follow, too. */
    method LeaveOver(a: nat)
      requires Ready() && a < |tree| && args != []
      modifies this
      ensures Ready() && SameFlags(old(apps), apps)
      ensures var n := if tree[a].prefixCommand then |old(args)| else 1;
        && args == old(args)[..|old(args)| - n]
        && trace == old(trace) + MissedRun(a, old(args), n, |words| - |old(args)|)
    {
      hide InOrder;
      ReadyFits();
      ghost var first, m := |words| - |args|, 1;
      MissTop(a, PlainArg);
      assert MissedRun(a, old(args), 1, first) == [Missed(a, PlainArg, old(args)[|old(args)| - 1], first)];
      if tree[a].prefixCommand {
        while args != []
          invariant Ready() && |apps| == |tree| && SameFlags(old(apps), apps)
          invariant 1 <= m <= |old(args)| && args == old(args)[..|old(args)| - m]
          invariant trace == old(trace) + MissedRun(a, old(args), m, first)
          decreases |args|
        {
          MissTop(a, PlainArg);
          m := m + 1;
        }
      }
    }

    lemma NowIs()
      ensures Now() == Moment(apps, args, trace)
    {
    }

    lemma ReadyFits()
      requires Ready()
      ensures Fits(tree, apps) && |apps| == |tree| && |args| <= |words|
      ensures InOrder(tree, words, apps, args, trace)
    {
    }

    /** One step of the parser: the new record and stack, and what they log. */
    method Advance(newApps: Apps, newArgs: seq<string>, ghost e: Event)
      requires InOrder(tree, words, newApps, newArgs, trace + [e])
      modifies this
      ensures Ready() && apps == newApps && args == newArgs && trace == old(trace) + [e]
    {
      hide InOrder;
      apps, args, trace := newApps, newArgs, trace + [e];
    }

    /** `add_result` with its `parse_order_` entry, for the top word, then pop. */
    method TakeTop(b: nat, o: nat)
      requires Ready() && b < |tree| && o < |tree[b].options| && args != []
      modifies this
      ensures Ready() && apps == WithResult(old(apps), b, o, old(args)[|old(args)| - 1])
      ensures args == old(args)[..|old(args)| - 1]
      ensures trace == old(trace) + [Took(b, o, old(args)[|old(args)| - 1], |words| - |old(args)|)]
    {
      hide *;
      ReadyFits();
      TakeInOrder(tree, words, apps, args, trace, b, o);
      var value := args[|args| - 1];
      Advance(WithResult(apps, b, o, value), args[..|args| - 1], Took(b, o, value, |words| - |args|));
    }

    /** Pop the top word into `missing_`. */
    method MissTop(b: nat, how: Classifier)
      requires Ready() && b < |tree| && args != [] && HowFits(how, args[|args| - 1])
      modifies this
      ensures Ready() && apps == WithMissing(old(apps), b, how, old(args)[|old(args)| - 1])
      ensures args == old(args)[..|old(args)| - 1]
      ensures trace == old(trace) + [Missed(b, how, old(args)[|old(args)| - 1], |words| - |old(args)|)]
    {
      hide *;
      ReadyFits();
      MissInOrder(tree, words, apps, args, trace, b, how);
      var text := args[|args| - 1];
      Advance(WithMissing(apps, b, how, text), args[..|args| - 1], Missed(b, how, text, |words| - |args|));
    }

    /** Pop an option word; the trace notes whose it was. */
    method NoteTop(b: nat, o: nat)
      requires Ready() && args != [] && |args| <= |words| && NamedBy(tree, words[|words| - |args|], b, o)
      modifies this
      ensures Ready() && apps == old(apps) && args == old(args)[..|old(args)| - 1]
      ensures Progress(words, args) == |words| - |args|
      ensures trace == old(trace) + [Named(b, o, |words| - |old(args)|)]
    {
      hide *;
      ReadyFits();
      NamedJustified(tree, words[|words| - |args|], b, o, |words| - |args|);
      NoteInOrder(tree, words, apps, args, trace, Named(b, o, |words| - |args|));
      Advance(apps, args[..|args| - 1], Named(b, o, |words| - |args|));
    }

    /** `add_result` for a value that stood in the option word just popped. */
    method AddOwn(b: nat, o: nat, value: string)
      requires Ready() && b < |tree| && o < |tree[b].options|
      requires Progress(words, args) == |words| - |args| > 0
      requires OwnOf(tree, words[|words| - |args| - 1], b, o, value)
      modifies this
      ensures Ready() && args == old(args) && apps == WithResult(old(apps), b, o, value)
      ensures trace == old(trace) + [Took(b, o, value, |words| - |args| - 1)]
    {
      hide *;
      ReadyFits();
      OwnInOrder(tree, words, apps, args, trace, b, o, value);
      Advance(WithResult(apps, b, o, value), args, Took(b, o, value, |words| - |args| - 1));
    }

    /** The loop of an unlimited option. */
    method EatUnlimited(b: nat, o: nat, want: int)
      requires Ready() && b < |tree| && o < |tree[b].options| && tree[b].options[o].expected <= 0 && want < 0
      modifies this
      ensures Ready() && SameFlags(old(apps), apps)
      ensures var m := Appetite(tree, old(apps), b, want, old(args));
        && m <= |old(args)| && args == old(args)[..|old(args)| - m]
        && trace == old(trace) + TookRun(b, o, old(args), m, |words| - |old(args)|)
    {
      hide InOrder, TreeOk, Recorded, Recognize, UnlimitedPositional, TookRun, PlainRun, CountRemaining;
      ReadyFits();
      PlainRunBound(tree, apps, b, args);
      TookMore(b, o, args, 0, |words| - |args|);
      var collected := 0;
      while args != [] && Recognize(tree, apps, b, args[|args| - 1]) == PlainArg
        invariant Ready() && Fits(tree, apps) && SameFlags(old(apps), apps)
        invariant 0 <= collected <= |old(args)| && args == old(args)[..|old(args)| - collected]
        invariant trace == old(trace) + TookRun(b, o, old(args), collected, |words| - |old(args)|)
        invariant PlainRun(tree, old(apps), b, old(args)) == collected + PlainRun(tree, old(apps), b, args)
        invariant Contested(tree, apps, b) == Contested(tree, old(apps), b)
        invariant collected <= -want || !Contested(tree, apps, b)
        decreases |args|
      {
        SamePlainRun(tree, old(apps), apps, b, args);
        if collected >= -want {
          if CountRemaining(tree[b], apps[b], false, |tree[b].options|) > 0 {
            break;
          }
          if UnlimitedPositional(tree[b]) {
            break;
          }
        }
        ghost var before := apps;
        PlainRunPop(tree, apps, b, args);
        SamePlainRun(tree, old(apps), apps, b, args[..|args| - 1]);
        TookMore(b, o, old(args), collected, |words| - |old(args)|);
        TakeTop(b, o);
        ReadyFits();
        SameRemaining(tree[b], before[b], apps[b], o, |tree[b].options|);
        collected := collected + 1;
      }
      PlainRunPop(tree, apps, b, args);
      SamePlainRun(tree, old(apps), apps, b, args);
    }

    /** The loop of an option with a fixed number of values. */
    method EatFixed(b: nat, o: nat, want: nat) returns (left: nat)
      requires Ready() && b < |tree| && o < |tree[b].options|
      modifies this
      ensures Ready() && SameFlags(old(apps), apps)
      ensures var m := Appetite(tree, old(apps), b, want, old(args));
        && m <= |old(args)| && args == old(args)[..|old(args)| - m] && left == want - m
        && trace == old(trace) + TookRun(b, o, old(args), m, |words| - |old(args)|)
    {
      hide InOrder;
      ReadyFits();
      left := want;
      ghost var m := 0;
      while left > 0 && args != []
        invariant Ready() && SameFlags(old(apps), apps)
        invariant 0 <= m <= |old(args)| && m + left == want && args == old(args)[..|old(args)| - m]
        invariant trace == old(trace) + TookRun(b, o, old(args), m, |words| - |old(args)|)
        decreases left
      {
        left := left - 1;
        TakeTop(b, o);
        m := m + 1;
      }
    }

    /** Put the rest of a group of flags back on top of the stack. */
    method PushBack(ghost current: string, rest: string)
      requires Ready() && |args| < |words| && Progress(words, args) == |words| - |args|
      requires rest != "" && |current| > 2 && current[0] == '-' && rest == current[2..]
      requires var word := words[|words| - |args| - 1]; current == word || Fragment(word, current)
      modifies `args
      ensures Ready() && args == old(args) + ["-" + rest]
    {
      RestPushed(words, args, current);
      hide Recorded, Covers, Fits, StackOk, Progress, Fragment;
      args := args + ["-" + rest];
    }

    /** Pop the option word and record the value it carries itself, if any. */
    method Announce(b: nat, o: nat, value: string, rest: string)
      requires Ready() && b < |tree| && o < |tree[b].options| && args != []
      requires |args| <= |words| && NamedBy(tree, words[|words| - |args|], b, o)
      requires var own := OwnValue(tree[b].options[o], value, rest);
        own.Some? ==> OwnOf(tree, words[|words| - |args|], b, o, own.value)
      modifies this
      ensures Ready() && args == old(args)[..|old(args)| - 1]
      ensures Progress(words, args) == |words| - |args|
      ensures apps == WithOwn(old(apps), b, o, OwnValue(tree[b].options[o], value, rest))
      ensures trace == old(trace) + OwnEvents(b, o, OwnValue(tree[b].options[o], value, rest), |words| - |old(args)|)
    {
      hide InOrder, Progress, NamedBy, OwnOf;
      ReadyFits();
      NoteTop(b, o);
      if value != "" {
        AddOwn(b, o, value);
      } else if tree[b].options[o].expected == 0 {
        AddOwn(b, o, "");
      } else if rest != "" {
        AddOwn(b, o, rest);
      }
    }

    /** The two loops of `_parse_arg`; `left` values could not be found. */
    method Consume(b: nat, o: nat, want: int) returns (left: nat)
      requires Ready() && b < |tree| && o < |tree[b].options|
      requires want < 0 ==> tree[b].options[o].expected <= 0
      modifies this
      ensures Ready() && SameFlags(old(apps), apps)
      ensures var m := Appetite(tree, old(apps), b, want, old(args));
        && m <= |old(args)| && args == old(args)[..|old(args)| - m]
        && left == (if want > m then want - m else 0)
        && trace == old(trace) + TookRun(b, o, old(args), m, |words| - |old(args)|)
    {
      hide InOrder, TookRun, PlainRun;
      ReadyFits();
      PlainRunBound(tree, apps, b, args);
      if want < 0 {
        EatUnlimited(b, o, want);
        left := 0;
      } else {
        left := EatFixed(b, o, want);
      }
    }

    /** The part of `_parse_arg` after the option has been found. */
    method ApplyOption(b: nat, o: nat, long: bool) returns (err: Option<Error>)
      requires Ready() && b < |tree| && o < |tree[b].options| && args != []
      requires Unwrap(args[|args| - 1], long).Some?
      requires FirstListing(tree[b], o, Unwrap(args[|args| - 1], long).value.0, long)
      modifies this
      ensures Ready() && SameFlags(old(apps), apps)
      ensures (args, err) == OptionLeft(tree, old(apps), b, o, long, old(args))
      ensures trace == old(trace) + OptionEvents(tree, old(apps), b, o, long, old(args), |words| - |old(args)|)
    {
      hide InOrder, TreeOk, Recorded, Progress, TookRun, PlainRun, NamedBy, OwnOf, Fragment, SplitLong, SplitShort, Appetite, OwnEvents, OwnValue, WithOwn, OptionLeft, OptionEvents, FirstListing;
      ReadyFits();
      var current, opt := args[|args| - 1], tree[b].options[o];
      var more := Unwrap(current, long).value.1;
      var value, rest := if long then more else "", if long then "" else more;
      OptionEventsAre(tree, apps, b, o, long, args, |words| - |args|, value, rest);
      OptionLeaves(tree, apps, b, o, long, args, value, rest);
      TopShows();
      OwnIsJustified(tree, words[|words| - |args|], current, b, o, long);
      Announce(b, o, value, rest);
      var num := StillWanted(opt, value, rest);
      ghost var stack := args;
      ReadyFits();
      AppetiteAfterOwn(tree, old(apps), apps, b, o, num, stack);
      var left := Consume(b, o, num);
      if left > 0 {
        return Some(ArgumentMismatch);
      }
      if opt.expected == 0 && rest != "" {
        assert args == stack;
        PushBack(current, rest);
      }
      return None;
    }

    /** `_parse_arg` */
    method ParseArg(a: nat, long: bool) returns (err: Option<Error>)
      requires Ready() && a < |tree| && args != []
      modifies this
      ensures Ready() && SameFlags(old(apps), apps)
      ensures HandledArg(tree, old(apps), a, long, old(args), |words| - |old(args)|, args, err, old(trace), trace)
      ensures Unwrap(old(args)[|old(args)| - 1], long).None? ==> apps == old(apps)
      decreases a
    {
      hide InOrder, SplitLong, SplitShort, OptionEvents, OptionLeft, FirstListing, Lists, OptionForm;
      ReadyFits();
      var parts := Unwrap(args[|args| - 1], long);
      if parts.None? {
        return Some(Horrible);
      }
      var options := tree[a].options;
      var o := FindNamed(options, parts.value.0, long, 0);
      FindsFirst(tree[a], parts.value.0, long);
      UnwrapIff(args[|args| - 1], long, parts.value.0, parts.value.1);
      if o == |options| {
        if tree[a].parent.Some? && tree[a].fallthrough {
          err := ParseArg(tree[a].parent.value, long);
          return;
        }
        MissTop(a, if long then Long else Short);
        return None;
      }
      err := ApplyOption(a, o, long);
    }

    /** `_parse_subcommand` */
    method ParseSubcommand(a: nat) returns (err: Option<Error>, ghost inner: seq<Step>)
      requires Ready() && a < |tree| && args != []
      modifies this
      ensures Logged() && old(trace) <= trace && StillParsed(old(apps), apps)
      ensures err.None? ==> Ready() && Weight(args) < old(Weight(args))
      ensures err.None? ==> Checked(tree, old(apps), apps) && (args != [] ==> SameParsed(old(apps), apps))
      ensures HandlerOf(tree, old(apps), a, old(args)[|old(args)| - 1]) == NoSuchSub <==> err == Some(Horrible)
      ensures HandledSub(tree, |words|, a, old(Now()), err, Now())
      ensures err.None? ==>
        FollowsSub(tree, |words|, HandlerOf(tree, old(apps), a, old(args)[|old(args)| - 1]), old(Now()), inner, Now())
      decreases Weight(args), 1, a
    {
      hide InOrder, Recorded, Weight, PositionalStep, PositionalEvents, PositionalCount, FinishError;
      ReadyFits();
      var current := args[|args| - 1];
      FindSubBound(tree, tree[a].subs, current);
      if CountRemaining(tree[a], apps[a], true, |tree[a].options|) > 0 {
        PositionalShrinks(tree, apps, a, args);
        ParsePositional(a);
        ReadyLogged();
        FlagsParsed(old(apps), apps);
        NothingToCheck(tree, old(apps), apps);
        return None, [];
      }
      var i := FindSub(tree, tree[a].subs, current);
      if i < |tree[a].subs| {
        var c := tree[a].subs[i];
        CheckNameIff(tree[c], current);
        err, inner := EnterSub(a, c);
      } else if tree[a].parent.Some? {
        err, inner := ParseSubcommand(tree[a].parent.value);
      } else {
        ReadyLogged();
        err, inner := Some(Horrible), [];
      }
    }

    /** Run the subcommand on the rest of the stack. */
    method EnterSub(a: nat, c: nat) returns (err: Option<Error>, ghost inner: seq<Step>)
      requires Ready() && a < |tree| && c < |tree| && args != []
      requires c in tree[a].subs && SameName(tree[c].name, args[|args| - 1], tree[c].ignoreCase)
      modifies this
      ensures Logged() && StillParsed(old(apps), apps) && |apps| == |tree| && apps[c].parsed
      ensures old(trace) + [Entered(a, c, |words| - |old(args)|)] <= trace
      ensures err != Some(Horrible)
      ensures err.None? ==> Ready() && args == [] && Weight(args) < old(Weight(args)) && Checked(tree, old(apps), apps)
      ensures err.None? ==> FollowsSub(tree, |words|, Enters(a, c), old(Now()), inner, Now())
      decreases Weight(args), 0, a
    {
      hide *;
      ReadyFits();
      NowIs();
      EnterTop(a, c);
      ReadyFits();
      NowIs();
      EnteringIs(old(Now()), a, c, |words| - |old(args)|);
      EnteredSame(old(apps), a, c);
      WeightPrefix(old(args), |old(args)| - 1);
      ghost var po;
      err, inner, po := Parse(c);
      NowIs();
      StillSince(old(apps), WithSub(old(apps), a, c), apps);
      if err.None? {
        CheckedSince(tree, old(apps), WithSub(old(apps), a, c), apps);
        SubFollows(tree, |words|, a, c, old(Now()), inner, Now(), po);
        EmptyWeighsLess(old(args));
      }
    }

    /** Pop the name of a subcommand and list it among the parsed ones. */
    method EnterTop(b: nat, c: nat)
      requires Ready() && b < |tree| && c < |tree| && args != []
      requires c in tree[b].subs && SameName(tree[c].name, args[|args| - 1], tree[c].ignoreCase)
      modifies this
      ensures Ready() && args == old(args)[..|old(args)| - 1]
      ensures trace == old(trace) + [Entered(b, c, |words| - |old(args)|)]
      ensures apps == WithSub(old(apps), b, c)
    {
      hide *;
      ReadyFits();
      TopShows();
      EnterInOrder(tree, words, apps, args, trace, b, c);
      Advance(WithSub(apps, b, c), args[..|args| - 1], Entered(b, c, |words| - |args|));
    }

    /** `_parse_single` */
    method ParseSingle(a: nat, positionalOnly: bool) returns (err: Option<Error>, po: bool, ghost inner: seq<Step>)
      requires Ready() && a < |tree| && args != []
      modifies this
      ensures Logged() && old(trace) <= trace && StillParsed(old(apps), apps) && err != Some(Horrible)
      ensures err.None? ==> Ready() && Weight(args) < old(Weight(args))
      ensures err.None? ==> Checked(tree, old(apps), apps) && (args != [] ==> SameParsed(old(apps), apps))
      ensures HandledSingle(tree, |words|, a, old(Now()), positionalOnly, err, po, Now())
      ensures err.None? ==> StepOk(tree, |words|, a, Step(old(Now()), positionalOnly, Now(), po, inner))
      decreases Weight(args), 2, a
    {
      hide InOrder, TreeOk, Recorded, ValidSub, HandlerOf, HandledSub, FollowsSub, PositionalStep, PositionalEvents, PositionalCount,
        ArgEvents, ArgLeft, SplitLong, SplitShort, Weight, Checked, SameParsed, FinishError;
      ReadyFits();
      err, po, inner := None, positionalOnly, [];
      var current := args[|args| - 1];
      var classifier := Classified(tree, apps, a, current, positionalOnly);
      match classifier {
        case PositionalMark =>
          WeightPrefix(args, |args| - 1);
          MissTop(a, PositionalMark);
          po := true;
        case Subcommand =>
          ValidSubIsHandled(tree, apps, a, current);
          err, inner := ParseSubcommand(a);
        case Long =>
          ArgShrinks(tree, apps, a, true, args);
          err := ParseArg(a, true);
        case Short =>
          ArgShrinks(tree, apps, a, false, args);
          err := ParseArg(a, false);
        case PlainArg =>
          PositionalShrinks(tree, apps, a, args);
          ParsePositional(a);
      }
      ReadyLogged();
      if classifier != Subcommand && err.None? {
        FlagsParsed(old(apps), apps);
        NothingToCheck(tree, old(apps), apps);
      }
    }

    lemma ReadyLogged()
      ensures Ready() ==> Logged()
    {
    }

    /** `_parse`: the token loop, then the checks. */
    method Parse(a: nat) returns (err: Option<Error>, ghost steps: seq<Step>, ghost po: bool)
      requires Ready() && a < |tree|
      modifies this
      ensures Logged() && old(trace) <= trace && StillParsed(old(apps), apps) && |apps| == |tree| && apps[a].parsed
      ensures err != Some(Horrible)
      ensures err.None? ==> Ready() && args == [] && FinishError(tree[a], apps, a) == None
      ensures err.None? ==> Checked(tree, old(apps), apps)
      ensures err.None? ==>
        Follows(tree, |words|, a, old(Now()).(apps := Marked(old(apps), a)), steps, Now(), po)
      decreases Weight(args), 3
    {
      hide InOrder, Weight, Classified, ArgLeft, ArgEvents, PositionalEvents, Checked, SameParsed, FinishError;
      MarkParsed(a);
      var positionalOnly := false;
      ghost var start := apps;
      ghost var from := Now();
      steps, po := [], false;
      StartFollows(tree, |words|, a, from);
      ReadyFits();
      NothingNew(tree, apps);
      while args != []
        invariant Checked(tree, start, apps) && (args != [] ==> SameParsed(start, apps))
        invariant Ready() && old(trace) <= trace && StillParsed(old(apps), apps)
        invariant |apps| == |tree| && apps[a].parsed
        invariant Weight(args) <= old(Weight(args))
        invariant Follows(tree, |words|, a, from, steps, Now(), positionalOnly)
        decreases Weight(args)
      {
        ghost var before := apps;
        ghost var s := Step(Now(), positionalOnly, Now(), false, []);
        ghost var inner;
        err, positionalOnly, inner := ParseSingle(a, positionalOnly);
        s := s.(after := Now(), po' := positionalOnly, inner := inner);
        if err.Some? {
          return;
        }
        FollowsSnoc(tree, |words|, a, from, steps, s);
        steps := steps + [s];
        CheckedSince(tree, start, before, apps);
        if args != [] {
          ParsedSince(start, before, apps);
        }
      }
      po := positionalOnly;
      err := Finish(a);
      FinishIsTame(tree[a], apps, a);
      if err.None? {
        ReadyFits();
        CheckedToo(tree, old(apps), apps, a);
      }
    }

    /** `parse` on a fresh parser: it ends, never with the error that says it
        should not have happened, and without an error every word of the command
        line is accounted for, in order, and every option of every app that was
        entered, at whatever depth, has what its definition asks for. */
    method ParseCommandLine() returns (err: Option<Error>, ghost steps: seq<Step>, ghost po: bool)
      requires Ready() && 0 < |tree| && trace == []
      requires forall a | 0 <= a < |apps| :: !apps[a].parsed
      modifies this
      ensures Logged() && err != Some(Horrible)
      ensures err.None? ==> Covers(tree, trace, words, |words|) && apps[0].parsed
      ensures err.None? ==>
        Follows(tree, |words|, 0, old(Now()).(apps := Marked(old(apps), 0)), steps, Now(), po) && args == []
      ensures err.None? ==> forall a, o | 0 <= a < |apps| && apps[a].parsed && 0 <= o < |tree[a].options| ::
        FinishError(tree[a], apps, a) == None && Satisfied(apps, tree[a].options[o], |apps[a].results[o]|)
    {
      err, steps, po := Parse(0);
      if err.None? {
        forall a | 0 <= a < |apps| && apps[a].parsed
          ensures FinishError(tree[a], apps, a) == None
          ensures forall o | 0 <= o < |tree[a].options| :: Satisfied(apps, tree[a].options[o], |apps[a].results[o]|)
        {
          CheckOptionsIff(tree[a], apps, a, 0);
        }
      }
    }

    method MarkParsed(a: nat)
      requires Ready() && a < |tree|
      modifies `apps
      ensures Ready() && |apps| == |tree| == |old(apps)| && apps == Marked(old(apps), a)
    {
      ReadyFits();
      hide InOrder;
      FlagsInOrder(tree, words, apps, args, trace, a, true, apps[a].parsedSubs);
      apps := Marked(apps, a);
    }

    /** The loop over the options in these checks. */
    method CheckAll(d: AppDef, a: nat) returns (err: Option<Error>)
      requires a < |apps| && |d.options| == |apps[a].results|
      ensures err == CheckOptions(d, apps, a, 0) && err != Some(Extras)
    {
      hide LacksOther, ClashesWithOther;
      var s := apps[a];
      var i := 0;
      while i < |d.options|
        invariant 0 <= i <= |d.options| && CheckOptions(d, apps, a, i) == CheckOptions(d, apps, a, 0)
      {
        var o, count := d.options[i], |s.results[i]|;
        if o.required || count != 0 {
          if o.expected < 0 && count < -o.expected {
            return Some(ArgumentMismatch);
          }
          if o.required && count == 0 {
            return Some(Required);
          }
        }
        if count > 0 && LacksOther(apps, o) {
          return Some(Requires);
        }
        if count > 0 && ClashesWithOther(apps, o) {
          return Some(Excludes);
        }
        i := i + 1;
      }
      return None;
    }

    /** The checks at the end of `_parse`. When there are leftovers the stack is
        overwritten with them, for the caller to see. */
    method Finish(a: nat) returns (err: Option<Error>)
      requires Ready() && a < |tree|
      modifies `args
      ensures err == FinishError(tree[a], apps, a) && Logged()
      ensures err != Some(Extras) ==> args == old(args)
      ensures err == Some(Extras) ==>
        |args| == |apps[a].missing| &&
        forall i | 0 <= i < |args| :: args[i] == apps[a].missing[|args| - 1 - i].1
    {
      ReadyLogged();
      hide InOrder, Logged;
      ReadyFits();
      var d, s := tree[a], apps[a];
      hide Fits, CheckOptions, HasExtras;
      if d.help.Some? && d.help.value < |s.results| && s.results[d.help.value] != [] {
        return Some(CallForHelp);
      }
      err := CheckAll(d, a);
      if err.Some? {
        return;
      }
      if d.subMin > |s.parsedSubs| {
        return Some(Required);
      }
      if !(d.allowExtras || d.prefixCommand) && HasExtras(s) {
        var n := |s.missing|;
        args := seq(n, i requires 0 <= i < n => s.missing[n - 1 - i].1);
        return Some(Extras);
      }
      return None;
    }

    lemma TopShows()
      requires Ready() && args != []
      ensures |args| <= |words|
      ensures Shows(words[|words| - |args|], args[|args| - 1])
    {
    }
  }

  /** The classification `_parse_single` goes by. */
  function Classified(tree: Tree, apps: Apps, a: nat, current: string, positionalOnly: bool): Classifier
    requires Fits(tree, apps) && a < |tree|
    ensures Classified(tree, apps, a, current, positionalOnly) == Long ==> Unwrap(current, true).Some?
    ensures Classified(tree, apps, a, current, positionalOnly) == Short ==> Unwrap(current, false).Some?
    ensures Classified(tree, apps, a, current, positionalOnly) == PositionalMark ==> current == "--"
    ensures Classified(tree, apps, a, current, positionalOnly) == Subcommand ==> ValidSub(tree, apps, a, current)
  {
    if positionalOnly then PlainArg else Recognize(tree, apps, a, current)
  }

  lemma PositionalShrinks(tree: Tree, apps: Apps, a: nat, args: seq<string>)
    requires Fits(tree, apps) && a < |tree| && args != []
    ensures var n := PositionalCount(tree, apps, a, args);
      n <= |args| && Weight(args[..|args| - n]) < Weight(args)
  {
    WeightPrefix(args, |args| - PositionalCount(tree, apps, a, args));
  }

  lemma OptionShrinks(tree: Tree, apps: Apps, b: nat, o: nat, long: bool, args: seq<string>)
    requires Fits(tree, apps) && b < |tree| && o < |tree[b].options|
    requires args != [] && Unwrap(args[|args| - 1], long).Some?
    ensures Weight(OptionLeft(tree, apps, b, o, long, args).0) < Weight(args)
    ensures OptionLeft(tree, apps, b, o, long, args).1 != Some(Horrible)
  {
    hide Fits, SplitLong, SplitShort, PlainRun, Contested, Weight;
    var below, more, opt := args[..|args| - 1], Unwrap(args[|args| - 1], long).value.1, tree[b].options[o];
    var value, rest := if long then more else "", if long then "" else more;
    var want := StillWanted(opt, value, rest);
    var m := Appetite(tree, apps, b, want, below);
    WeightPrefix(args, |args| - 1);
    AppetiteBound(tree, apps, b, want, below);
    WeightPrefix(below, |below| - m);
    if opt.expected == 0 && rest != "" {
      hide Appetite;
      assert want == 0 && below[..|below| - m] == below;
      PushBackShrinks(args);
    } else {
      hide Appetite, StillWanted, Unwrap;
      assert OptionLeft(tree, apps, b, o, long, args).0 == below[..|below| - m];
    }
  }

  lemma AppetiteBound(tree: Tree, apps: Apps, b: nat, want: int, args: seq<string>)
    requires Fits(tree, apps) && b < |tree|
    ensures Appetite(tree, apps, b, want, args) <= |args|
    ensures want == 0 ==> Appetite(tree, apps, b, want, args) == 0
  {
    PlainRunBound(tree, apps, b, args);
  }

  /** What an option word does, by the values it carries. */
  lemma OptionEventsAre(tree: Tree, apps: Apps, b: nat, o: nat, long: bool, args: seq<string>, at: nat, value: string, rest: string)
    requires Fits(tree, apps) && b < |tree| && o < |tree[b].options|
    requires args != [] && Unwrap(args[|args| - 1], long).Some?
    requires (value, rest) == if long then (Unwrap(args[|args| - 1], long).value.1, "") else ("", Unwrap(args[|args| - 1], long).value.1)
    ensures var opt, below := tree[b].options[o], args[..|args| - 1];
      var m := Appetite(tree, apps, b, StillWanted(opt, value, rest), below);
      && m <= |below|
      && OptionEvents(tree, apps, b, o, long, args, at) ==
           OwnEvents(b, o, OwnValue(opt, value, rest), at) + TookRun(b, o, below, m, at + 1)
  {
    hide Fits, Unwrap, OwnEvents, TookRun, Appetite, StillWanted, OwnValue;
    AppetiteBound(tree, apps, b, StillWanted(tree[b].options[o], value, rest), args[..|args| - 1]);
  }

  lemma OptionLeaves(tree: Tree, apps: Apps, b: nat, o: nat, long: bool, args: seq<string>, value: string, rest: string)
    requires Fits(tree, apps) && b < |tree| && o < |tree[b].options|
    requires args != [] && Unwrap(args[|args| - 1], long).Some?
    requires (value, rest) == if long then (Unwrap(args[|args| - 1], long).value.1, "") else ("", Unwrap(args[|args| - 1], long).value.1)
    ensures var opt, below := tree[b].options[o], args[..|args| - 1];
      var want := StillWanted(opt, value, rest);
      var m := Appetite(tree, apps, b, want, below);
      && m <= |below| && (opt.expected == 0 && rest != "" ==> m == 0)
      && OptionLeft(tree, apps, b, o, long, args) ==
           if want > m then (below[..|below| - m], Some(ArgumentMismatch))
           else if opt.expected == 0 && rest != "" then (below[..|below| - m] + ["-" + rest], None)
           else (below[..|below| - m], None)
  {
    var opt := tree[b].options[o];
    var want := StillWanted(opt, value, rest);
    assert opt.expected == 0 && rest != "" ==> want == 0;
    hide Fits, Unwrap, Appetite, StillWanted;
    AppetiteBound(tree, apps, b, want, args[..|args| - 1]);
  }

  /** Every way through `_parse_arg` leaves less to read. */
  lemma {:induction false} ArgShrinks(tree: Tree, apps: Apps, a: nat, long: bool, args: seq<string>)
    requires Fits(tree, apps) && a < |tree| && args != [] && Unwrap(args[|args| - 1], long).Some?
    ensures Weight(ArgLeft(tree, apps, a, long, args).0) < Weight(args)
    ensures ArgLeft(tree, apps, a, long, args).1 != Some(Horrible)
  {
    hide OptionLeft, Weight;
    WeightPrefix(args, |args| - 1);
    match NamedReceiver(tree, a, Unwrap(args[|args| - 1], long).value.0, long)
    case LeftOver(_) =>
    case TakenBy(b, o) => OptionShrinks(tree, apps, b, o, long, args);
  }

  /** An option word names its option, and the value is the one it carries. */
  lemma OwnIsJustified(tree: Tree, word: string, current: string, b: nat, o: nat, long: bool)
    requires Shows(word, current) && Unwrap(current, long).Some? && b < |tree|
    requires FirstListing(tree[b], o, Unwrap(current, long).value.0, long)
    ensures NamedBy(tree, word, b, o)
    ensures var more := Unwrap(current, long).value.1;
      var own := OwnValue(tree[b].options[o], if long then more else "", if long then "" else more);
      own.Some? ==> OwnOf(tree, word, b, o, own.value)
    ensures !long && Unwrap(current, long).value.1 != "" ==>
      |current| > 2 && current[0] == '-' && Unwrap(current, long).value.1 == current[2..]
  {
    var (name, more) := Unwrap(current, long).value;
    UnwrapIff(current, long, name, more);
    assert Source(tree, word, b, o, current, name, long, more);
    hide Source, OptionForm, FirstListing;
  }

  lemma CheckNameIff(d: AppDef, name: string)
    ensures d.CheckName(name) <==> SameName(d.name, name, d.ignoreCase)
  {
    LowerIff(d.name, name);
  }

  lemma {:induction false} AmongIff(o: OptionDef, name: string, long: bool)
    ensures o.Among(if long then o.lnames else o.snames, name) <==> Lists(o, name, long)
  {
    var names := if long then o.lnames else o.snames;
    forall other | other in names ensures ToLower(other) == ToLower(name) <==> SameName(other, name, true) {
      LowerIff(other, name);
    }
    if o.ignoreCase && o.Among(names, name) {
      var i :| 0 <= i < |names| && ToLower(names[i]) == ToLower(name);
      assert names[i] in names;
    }
    assert SameName(name, name, o.ignoreCase);
    if Lists(o, name, long) {
      var other :| other in names && SameName(other, name, o.ignoreCase);
      var i :| 0 <= i < |names| && names[i] == other;
    }
  }

  lemma {:induction false} FindsFirstFrom(d: AppDef, name: string, long: bool, i: nat)
    requires i <= |d.options| && forall p | 0 <= p < i :: !Lists(d.options[p], name, long)
    ensures var o := FindNamed(d.options, name, long, i);
      if o < |d.options| then FirstListing(d, o, name, long)
      else forall p | 0 <= p < |d.options| :: !Lists(d.options[p], name, long)
    decreases |d.options| - i
  {
    hide Lists;
    if i < |d.options| {
      AmongIff(d.options[i], name, long);
      if !Lists(d.options[i], name, long) {
        FindsFirstFrom(d, name, long, i + 1);
      }
    }
  }

  lemma FindsFirst(d: AppDef, name: string, long: bool)
    ensures var o := FindNamed(d.options, name, long, 0);
      if o < |d.options| then FirstListing(d, o, name, long)
      else forall p | 0 <= p < |d.options| :: !Lists(d.options[p], name, long)
  {
    FindsFirstFrom(d, name, long, 0);
  }

  /** The value in its own word changes nothing that decides how many more
      words the option takes. */
  lemma AppetiteAfterOwn(tree: Tree, apps: Apps, apps': Apps, b: nat, o: nat, want: int, args: seq<string>)
    requires Fits(tree, apps) && Fits(tree, apps') && b < |tree| && o < |tree[b].options|
    requires exists own :: apps' == WithOwn(apps, b, o, own)
    requires want < 0 ==> tree[b].options[o].expected <= 0
    ensures SameFlags(apps, apps')
    ensures Appetite(tree, apps, b, want, args) == Appetite(tree, apps', b, want, args)
  {
    if want < 0 {
      SamePlainRun(tree, apps, apps', b, args);
      SameRemaining(tree[b], apps[b], apps'[b], o, |tree[b].options|);
    }
  }

  /** What is pushed back is again the word without some of its flags. */
  /** The rest of a group of flags stands for the word it is taken from. */
  lemma RestPushed(words: seq<string>, args: seq<string>, current: string)
    requires |args| < |words| && StackOk(words, args) && Progress(words, args) == |words| - |args|
    requires |current| > 2 && current[0] == '-'
    requires var word := words[|words| - |args| - 1]; current == word || Fragment(word, current)
    ensures var args' := args + ["-" + current[2..]];
      StackOk(words, args') && Progress(words, args') == Progress(words, args)
  {
    var word, args' := words[|words| - |args| - 1], args + ["-" + current[2..]];
    RestIsFragment(word, current);
    FragmentDiffers(word, "-" + current[2..]);
    hide Fragment;
    forall i | 0 <= i < |args'| - 1 ensures args'[i] == words[|words| - 1 - i] {
      assert args'[i] == args[i];
      assert i == |args| - 1 ==> args[i] == words[|words| - |args|];
    }
  }

  lemma FragmentDiffers(word: string, text: string)
    requires Fragment(word, text)
    ensures text != word
  {
  }

  lemma RestIsFragment(word: string, text: string)
    requires text == word || Fragment(word, text)
    requires |text| > 2 && text[0] == '-'
    ensures Fragment(word, "-" + text[2..])
  {
    if text != word {
      var k :| 2 <= k < |word| && text == "-" + word[k..];
      assert text[2..] == word[k + 1..];
    }
  }
}
