/** A command line as its user writes it, and what parsing reads back: src/rcl/arguments.h.

    A command line is made of arguments outside and of `--ros-args ... --` scopes with remap rules,
    other flags with values, switches and unknown words.  The flags are spelled out here once more,
    and the main result is that parsing with the words of the header undoes the writing.
 */
module CommandLine {

  import opened Arguments

  /** What may stand inside a scope. */
  datatype Item =
    | Remap(short: bool, rule: string)
    | Valued(flag: string, value: string)
    | Toggle(flag: string)
    | Stray(text: string)

  predicate HasValueFlag(flag: string) {
    flag in {"-p", "--param", "--params-file", "-e", "--enclave",
             "--log-level", "--log-file-name", "--log-config-file"}
  }

  predicate IsToggle(flag: string) {
    flag in {"--enable-rosout-logs", "--disable-rosout-logs", "--enable-stdout-logs", "--disable-stdout-logs",
             "--enable-external-lib-logs", "--disable-external-lib-logs"}
  }

  predicate IsItem(item: Item) {
    match item
    case Remap(_, _) => true
    case Valued(flag, _) => HasValueFlag(flag)
    case Toggle(flag) => IsToggle(flag)
    case Stray(text) =>
      text !in {"--ros-args", "--", "-r", "--remap"} && !HasValueFlag(text) && !IsToggle(text)
  }

  function Flag(item: Item): string {
    match item
    case Remap(short, _) => if short then "-r" else "--remap"
    case Valued(flag, _) => flag
    case Toggle(flag) => flag
    case Stray(text) => text
  }

  // ----- what is written, and what reading is to make of it -----

  /** Arguments, what becomes of each, the rules among them, and whether every value is valid. */
  datatype Text = Text(words: seq<string>, classes: seq<Class>, rules: seq<string>, valid: bool)

  const EMPTY := Text([], [], [], true)

  function Single(word: string, c: Class): Text {
    Text([word], [c], [], true)
  }

  function Join(a: Text, b: Text): Text {
    Text(a.words + b.words, a.classes + b.classes, a.rules + b.rules, a.valid && b.valid)
  }

  /** A flag and its value are used by ROS, a switch too, and an unknown word is left over. */
  function ItemText(item: Item, accept: Accept): Text {
    match item
    case Remap(_, rule) => Text([Flag(item), rule], [Consumed, Consumed], [rule], accept(Flag(item), rule))
    case Valued(flag, value) => Text([flag, value], [Consumed, Consumed], [], accept(flag, value))
    case Toggle(flag) => Single(flag, Consumed)
    case Stray(text) => Single(text, UnparsedRos)
  }

  function ItemsText(items: seq<Item>, accept: Accept): Text {
    if items == [] then EMPTY else Join(ItemText(items[0], accept), ItemsText(items[1..], accept))
  }

  predicate AreItems(items: seq<Item>) {
    items == [] || (IsItem(items[0]) && AreItems(items[1..]))
  }

  /** An argument outside every scope, or a scope. */
  datatype Segment = Outer(arg: string) | Scope(items: seq<Item>, closed: bool)

  function SegmentText(s: Segment, accept: Accept): Text {
    match s
    case Outer(arg) => Single(arg, Unparsed)
    case Scope(items, closed) =>
      Join(Join(Single("--ros-args", Consumed), ItemsText(items, accept)),
           if closed then Single("--", Consumed) else EMPTY)
  }

  function LineText(ss: seq<Segment>, accept: Accept): Text {
    if ss == [] then EMPTY else Join(SegmentText(ss[0], accept), LineText(ss[1..], accept))
  }

  predicate IsSegment(s: Segment) {
    match s
    case Outer(arg) => arg != "--ros-args"
    case Scope(items, _) => AreItems(items)
  }

  predicate LeavesOpen(s: Segment) {
    s.Scope? && !s.closed
  }

  /** Only the last scope may be left open. */
  predicate IsCommandLine(ss: seq<Segment>) {
    ss == [] || (IsSegment(ss[0]) && (|ss| > 1 ==> !LeavesOpen(ss[0])) && IsCommandLine(ss[1..]))
  }

  // ----- reading it -----

  /** A reading that knows the words as they are spelled here. */
  ghost predicate Knows(read: Reading) {
    && read("--ros-args") == OpenScope
    && read("--") == CloseScope
    && (forall arg :: arg != "--ros-args" ==> read(arg) != OpenScope)
    && (forall item :: IsItem(item) ==> read(Flag(item)) == WordFor(item))
  }

  function WordFor(item: Item): Word {
    match item
    case Remap(_, _) => RemapFlag
    case Valued(_, _) => ValueFlag
    case Toggle(_) => Switch
    case Stray(_) => Other
  }

  lemma HeaderKnows()
    ensures Knows(WordOf)
  {
    forall item | IsItem(item) ensures WordOf(Flag(item)) == WordFor(item) {
      match item
      case Remap(_, _) =>
      case Valued(_, _) =>
      case Toggle(_) =>
      case Stray(_) =>
    }
  }

  function Plus(p: Parsed, classes: seq<Class>, remaps: seq<string>): Parsed {
    Parsed(p.classes + classes, p.remaps + remaps)
  }

  lemma PlusPlus(p: Parsed, a: seq<Class>, b: seq<Class>, r: seq<string>, s: seq<string>)
    ensures Plus(Plus(p, a, r), b, s) == Plus(p, a + b, r + s)
    ensures Plus(p, [], []) == p
  {
  }

  predicate StandsAt(argv: seq<string>, i: nat, piece: seq<string>) {
    i + |piece| <= |argv| && argv[i..i + |piece|] == piece
  }

  lemma StandsAtSplit(argv: seq<string>, i: nat, a: seq<string>, b: seq<string>)
    requires StandsAt(argv, i, a + b)
    ensures StandsAt(argv, i, a) && StandsAt(argv, i + |a|, b)
  {
    var both := argv[i..i + |a + b|];
    assert both[..|a|] == a && both[|a|..] == b;
    assert argv[i..i + |a|] == both[..|a|] && argv[i + |a|..i + |a| + |b|] == both[|a|..];
  }

  lemma WordAt(argv: seq<string>, i: nat, piece: seq<string>, k: nat)
    requires StandsAt(argv, i, piece) && k < |piece|
    ensures argv[i + k] == piece[k]
  {
    assert argv[i..i + |piece|][k] == argv[i + k];
  }

  /** What parsing comes to from an index on, inside a scope or not, after a result so far. */
  type Reader = (nat, bool, Parsed) -> Result

  /** From index `i` on the reader reads the text and goes on behind it, or refuses it. */
  predicate Reads(f: Reader, i: nat, inScope: bool, p: Parsed, t: Text, inScopeAfter: bool) {
    f(i, inScope, p) ==
    if !t.valid then InvalidRosArgs else f(i + |t.words|, inScopeAfter, Plus(p, t.classes, t.rules))
  }

  lemma ReadsJoin(f: Reader, i: nat, r: bool, p: Parsed, a: Text, s: bool, b: Text, t: bool)
    requires Reads(f, i, r, p, a, s) && Reads(f, i + |a.words|, s, Plus(p, a.classes, a.rules), b, t)
    ensures Reads(f, i, r, p, Join(a, b), t)
  {
    PlusPlus(p, a.classes, b.classes, a.rules, b.rules);
    assert i + |a.words| + |b.words| == i + |a.words + b.words|;
  }

  lemma ReadsEmpty(f: Reader, i: nat, inScope: bool, p: Parsed)
    ensures Reads(f, i, inScope, p, EMPTY, inScope)
  {
    PlusPlus(p, [], [], [], []);
  }

  /** How a reader goes on at an item and at a single word. */
  ghost predicate Obeys(f: Reader, argv: seq<string>, accept: Accept) {
    && (forall i: nat, p, item :: IsItem(item) && StandsAt(argv, i, ItemText(item, accept).words) ==>
          Reads(f, i, true, p, ItemText(item, accept), true))
    && (forall i: nat, p, arg :: StandsAt(argv, i, [arg]) && arg != "--ros-args" ==>
          Reads(f, i, false, p, Single(arg, Unparsed), false))
    && (forall i: nat, p :: StandsAt(argv, i, ["--ros-args"]) ==>
          Reads(f, i, false, p, Single("--ros-args", Consumed), true))
    && (forall i: nat, p :: StandsAt(argv, i, ["--"]) ==> Reads(f, i, true, p, Single("--", Consumed), false))
  }

  function ReaderOf(argv: seq<string>, read: Reading, accept: Accept): Reader {
    (i: nat, inScope: bool, p: Parsed) =>
      if i <= |argv| then ParseFrom(argv, read, accept, i, inScope, p) else InvalidRosArgs
  }

  lemma ParsingObeys(argv: seq<string>, read: Reading, accept: Accept)
    requires Knows(read)
    ensures Obeys(ReaderOf(argv, read, accept), argv, accept)
  {
    var f := ReaderOf(argv, read, accept);
    forall i: nat, p, item | IsItem(item) && StandsAt(argv, i, ItemText(item, accept).words)
      ensures Reads(f, i, true, p, ItemText(item, accept), true)
    {
      ItemIsRead(argv, read, accept, i, p, item);
    }
    forall i: nat, p, arg | StandsAt(argv, i, [arg]) && arg != "--ros-args"
      ensures Reads(f, i, false, p, Single(arg, Unparsed), false)
    {
      WordIsRead(argv, read, accept, i, p, arg, false, Unparsed);
    }
    forall i: nat, p | StandsAt(argv, i, ["--ros-args"])
      ensures Reads(f, i, false, p, Single("--ros-args", Consumed), true)
    {
      WordIsRead(argv, read, accept, i, p, "--ros-args", false, Consumed);
    }
    forall i: nat, p | StandsAt(argv, i, ["--"]) ensures Reads(f, i, true, p, Single("--", Consumed), false) {
      WordIsRead(argv, read, accept, i, p, "--", true, Consumed);
    }
  }

  lemma WordIsRead(
    argv: seq<string>, read: Reading, accept: Accept, i: nat, p: Parsed, arg: string, inScope: bool, c: Class)
    requires StandsAt(argv, i, [arg]) && !TakesValue(inScope, read(arg)) && ClassOf(inScope, read(arg)) == c
    ensures Reads(ReaderOf(argv, read, accept), i, inScope, p, Single(arg, c), InScopeAfter(inScope, read(arg)))
  {
    WordAt(argv, i, [arg], 0);
    assert Then(p, c) == Plus(p, [c], []);
  }

  lemma FlagIsRead(
    argv: seq<string>, read: Reading, accept: Accept, i: nat, p: Parsed, flag: string, value: string, w: Word)
    requires StandsAt(argv, i, [flag, value]) && read(flag) == w && (w == RemapFlag || w == ValueFlag)
    ensures var rules := if w == RemapFlag then [value] else [];
            Reads(ReaderOf(argv, read, accept), i, true, p,
                  Text([flag, value], [Consumed, Consumed], rules, accept(flag, value)), true)
  {
    WordAt(argv, i, [flag, value], 0);
    WordAt(argv, i, [flag, value], 1);
    assert WithValue(p, w, value) == Plus(p, [Consumed, Consumed], if w == RemapFlag then [value] else []);
  }

  lemma ItemIsRead(argv: seq<string>, read: Reading, accept: Accept, i: nat, p: Parsed, item: Item)
    requires Knows(read) && IsItem(item) && StandsAt(argv, i, ItemText(item, accept).words)
    ensures Reads(ReaderOf(argv, read, accept), i, true, p, ItemText(item, accept), true)
  {
    match item
    case Remap(_, rule) => FlagIsRead(argv, read, accept, i, p, Flag(item), rule, RemapFlag);
    case Valued(flag, value) => FlagIsRead(argv, read, accept, i, p, Flag(item), value, ValueFlag);
    case Toggle(flag) => WordIsRead(argv, read, accept, i, p, Flag(item), true, Consumed);
    case Stray(text) => WordIsRead(argv, read, accept, i, p, Flag(item), true, UnparsedRos);
  }

  lemma {:induction false} ItemsAreRead(
    f: Reader, argv: seq<string>, accept: Accept, i: nat, p: Parsed, items: seq<Item>)
    requires Obeys(f, argv, accept) && AreItems(items) && StandsAt(argv, i, ItemsText(items, accept).words)
    ensures Reads(f, i, true, p, ItemsText(items, accept), true)
    decreases |items|
  {
    if items == [] {
      ReadsEmpty(f, i, true, p);
    } else {
      var a, b := ItemText(items[0], accept), ItemsText(items[1..], accept);
      StandsAtSplit(argv, i, a.words, b.words);
      ItemsAreRead(f, argv, accept, i + |a.words|, Plus(p, a.classes, a.rules), items[1..]);
      ReadsJoin(f, i, true, p, a, true, b, true);
    }
  }

  lemma ScopeIsRead(
    f: Reader, argv: seq<string>, accept: Accept, i: nat, p: Parsed, items: seq<Item>, closed: bool)
    requires Obeys(f, argv, accept) && AreItems(items)
    requires StandsAt(argv, i, SegmentText(Scope(items, closed), accept).words)
    ensures Reads(f, i, false, p, SegmentText(Scope(items, closed), accept), !closed)
  {
    var a, b := Single("--ros-args", Consumed), ItemsText(items, accept);
    var c := if closed then Single("--", Consumed) else EMPTY;
    var ab := Join(a, b);
    StandsAtSplit(argv, i, ab.words, c.words);
    StandsAtSplit(argv, i, a.words, b.words);
    ItemsAreRead(f, argv, accept, i + |a.words|, Plus(p, a.classes, a.rules), items);
    ReadsJoin(f, i, false, p, a, true, b, true);
    ReadsEmpty(f, i + |ab.words|, true, Plus(p, ab.classes, ab.rules));
    ReadsJoin(f, i, false, p, ab, true, c, !closed);
  }

  lemma SegmentIsRead(f: Reader, argv: seq<string>, accept: Accept, i: nat, p: Parsed, s: Segment)
    requires Obeys(f, argv, accept) && IsSegment(s) && StandsAt(argv, i, SegmentText(s, accept).words)
    ensures Reads(f, i, false, p, SegmentText(s, accept), LeavesOpen(s))
  {
    match s
    case Outer(_) =>
    case Scope(items, closed) => ScopeIsRead(f, argv, accept, i, p, items, closed);
  }

  /** Whether the last segment leaves its scope open. */
  predicate EndsOpen(ss: seq<Segment>) {
    ss != [] && LeavesOpen(ss[|ss| - 1])
  }

  lemma {:induction false} LineIsRead(
    f: Reader, argv: seq<string>, accept: Accept, i: nat, p: Parsed, ss: seq<Segment>)
    requires Obeys(f, argv, accept) && IsCommandLine(ss) && StandsAt(argv, i, LineText(ss, accept).words)
    ensures Reads(f, i, false, p, LineText(ss, accept), EndsOpen(ss))
    decreases |ss|
  {
    if ss == [] {
      ReadsEmpty(f, i, false, p);
    } else {
      var a, b := SegmentText(ss[0], accept), LineText(ss[1..], accept);
      var j, q := i + |a.words|, Plus(p, a.classes, a.rules);
      StandsAtSplit(argv, i, a.words, b.words);
      SegmentIsRead(f, argv, accept, i, p, ss[0]);
      if |ss| == 1 {
        assert ss[1..] == [];
        ReadsEmpty(f, j, EndsOpen(ss), q);
      } else {
        LineIsRead(f, argv, accept, j, q, ss[1..]);
      }
      ReadsJoin(f, i, false, p, a, LeavesOpen(ss[0]), b, EndsOpen(ss));
    }
  }

  /** Main result: what is written is read.  Parsing a command line with the words of the header finds
      its remap rules in order, leaves unparsed exactly the name and the arguments outside the
      scopes, and leaves for ROS exactly the unknown words inside; it is refused exactly if some
      value is not valid for its flag. */
  lemma WhatIsWrittenIsRead(name: string, ss: seq<Segment>, accept: Accept)
    requires IsCommandLine(ss)
    ensures var t := LineText(ss, accept);
            Parse([name] + t.words, WordOf, accept) ==
            if !t.valid then InvalidRosArgs else Ok(Parsed([Unparsed] + t.classes, t.rules))
  {
    var t := LineText(ss, accept);
    var argv := [name] + t.words;
    assert argv[1..1 + |t.words|] == t.words;
    HeaderKnows();
    ParsingObeys(argv, WordOf, accept);
    LineIsRead(ReaderOf(argv, WordOf, accept), argv, accept, 1, Parsed([Unparsed], []), ss);
    assert [] + t.rules == t.rules;
  }
}
