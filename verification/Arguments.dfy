/** Command-line scopes: src/rcl/arguments.h.

    ROS arguments are scoped by `--ros-args` and `--`.  Parsing assigns every index of argv to
    exactly one of three classes; stripping keeps the arguments outside every scope.  Whether the
    value after a flag is well formed (a remap rule, a parameter override, ...) is left to a
    parameter, over which every result is quantified.
 */
module Arguments {

  // ----- the vocabulary -----

  datatype Word = OpenScope | CloseScope | RemapFlag | ValueFlag | Switch | Other

  function WordOf(arg: string): Word {
    if arg == "--ros-args" then OpenScope
    else if arg == "--" then CloseScope
    else if arg in {"--remap", "-r"} then RemapFlag
    else if arg in {"--param", "-p", "--params-file", "--enclave", "-e", "--log-level",
                    "--log-file-name", "--log-config-file"} then ValueFlag
    else if arg in {"--enable-stdout-logs", "--enable-rosout-logs", "--enable-external-lib-logs",
                    "--disable-stdout-logs", "--disable-rosout-logs", "--disable-external-lib-logs"} then Switch
    else Other
  }

  /** How arguments are read; WordOf in the end, but nothing below depends on the spelling. */
  type Reading = string -> Word

  /** Whether the second argument is a valid value for the first, a flag. */
  type Accept = (string, string) -> bool

  // ----- parsing as a function -----

  /** What parsing did with an argument. */
  datatype Class = Unparsed | UnparsedRos | Consumed

  /** The classes of the arguments so far, and the remap rules in the order they were given. */
  datatype Parsed = Parsed(classes: seq<Class>, remaps: seq<string>)

  /** RCL_RET_OK with the result, or RCL_RET_INVALID_ROS_ARGS. */
  datatype Result = Ok(value: Parsed) | InvalidRosArgs

  /** Inside a scope the next argument is the value of such a flag. */
  predicate TakesValue(inScope: bool, w: Word) {
    inScope && (w == RemapFlag || w == ValueFlag)
  }

  function ClassOf(inScope: bool, w: Word): Class {
    if w == OpenScope then Consumed
    else if !inScope then Unparsed
    else if w == CloseScope || w == Switch then Consumed
    else UnparsedRos
  }

  predicate InScopeAfter(inScope: bool, w: Word) {
    w == OpenScope || (inScope && w != CloseScope)
  }

  function Then(p: Parsed, c: Class): Parsed {
    p.(classes := p.classes + [c])
  }

  /** The result so far after a flag and its value. */
  function WithValue(p: Parsed, w: Word, value: string): Parsed {
    Parsed(p.classes + [Consumed] + [Consumed], if w == RemapFlag then p.remaps + [value] else p.remaps)
  }

  /** Parses argv from index `i` on, `p` being the result so far. */
  function ParseFrom(argv: seq<string>, read: Reading, accept: Accept, i: nat, inScope: bool, p: Parsed): Result
    requires i <= |argv|
    decreases |argv| - i
  {
    if i == |argv| then Ok(p) else
      var w := read(argv[i]);
      if TakesValue(inScope, w) then
        if i + 1 < |argv| && accept(argv[i], argv[i + 1])
        then ParseFrom(argv, read, accept, i + 2, true, WithValue(p, w, argv[i + 1]))
        else InvalidRosArgs
      else
        ParseFrom(argv, read, accept, i + 1, InScopeAfter(inScope, w), Then(p, ClassOf(inScope, w)))
  }

  /** The first argument is taken to be the process name. */
  function Parse(argv: seq<string>, read: Reading, accept: Accept): Result {
    if argv == [] then Ok(Parsed([], []))
    else ParseFrom(argv, read, accept, 1, false, Parsed([Unparsed], []))
  }

  /** The indices with class `c`, in order. */
  function IndicesOf(classes: seq<Class>, c: Class): (r: seq<nat>)
    ensures forall i :: 0 <= i < |r| ==> r[i] < |classes|
    decreases |classes|
  {
    if classes == [] then [] else
      var last := |classes| - 1;
      IndicesOf(classes[..last], c) + if classes[last] == c then [last] else []
  }

  /** Each index of the class is listed, nothing else is, and the list goes upwards. */
  lemma {:induction false} IndicesAre(classes: seq<Class>, c: Class)
    ensures var r := IndicesOf(classes, c);
            && (forall i :: 0 <= i < |r| ==> classes[r[i]] == c)
            && (forall k :: 0 <= k < |classes| && classes[k] == c ==> k in r)
            && (forall i, j :: 0 <= i < j < |r| ==> r[i] < r[j])
  {
    var r := IndicesOf(classes, c);
    forall i | 0 <= i < |r| ensures classes[r[i]] == c {
      IndexHasClass(classes, c, i);
    }
    forall k | 0 <= k < |classes| && classes[k] == c ensures k in r {
      IndexIsListed(classes, c, k);
    }
    forall i, j | 0 <= i < j < |r| ensures r[i] < r[j] {
      IndicesGoUp(classes, c, i, j);
    }
  }

  lemma {:induction false} IndexHasClass(classes: seq<Class>, c: Class, i: nat)
    requires i < |IndicesOf(classes, c)|
    ensures classes[IndicesOf(classes, c)[i]] == c
    decreases |classes|
  {
    if i < |IndicesOf(classes[..|classes| - 1], c)| {
      IndexHasClass(classes[..|classes| - 1], c, i);
    }
  }

  lemma {:induction false} IndexIsListed(classes: seq<Class>, c: Class, k: nat)
    requires k < |classes| && classes[k] == c
    ensures k in IndicesOf(classes, c)
    decreases |classes|
  {
    if k < |classes| - 1 {
      IndexIsListed(classes[..|classes| - 1], c, k);
    }
  }

  lemma {:induction false} IndicesGoUp(classes: seq<Class>, c: Class, i: nat, j: nat)
    requires i < j < |IndicesOf(classes, c)|
    ensures IndicesOf(classes, c)[i] < IndicesOf(classes, c)[j]
    decreases |classes|
  {
    if j < |IndicesOf(classes[..|classes| - 1], c)| {
      IndicesGoUp(classes[..|classes| - 1], c, i, j);
    }
  }

  lemma IndicesSnoc(cs: seq<Class>, c: Class)
    ensures forall d :: IndicesOf(cs + [c], d) == if d == c then IndicesOf(cs, d) + [|cs|] else IndicesOf(cs, d)
  {
    assert (cs + [c])[..|cs|] == cs;
  }

  // ----- parsing as the source does it -----

  /** rcl_parse_arguments */
  method ParseArguments(argv: seq<string>, read: Reading, accept: Accept)
    returns (ok: bool, unparsed: seq<nat>, unparsedRos: seq<nat>, remaps: seq<string>)
    ensures ok <==> Parse(argv, read, accept).Ok?
    ensures ok ==> unparsed == IndicesOf(Parse(argv, read, accept).value.classes, Unparsed)
    ensures ok ==> unparsedRos == IndicesOf(Parse(argv, read, accept).value.classes, UnparsedRos)
    ensures ok ==> remaps == Parse(argv, read, accept).value.remaps
  {
    ok, unparsed, unparsedRos, remaps := true, [], [], [];
    if argv == [] {
      return;
    }
    unparsed := [0];
    ghost var classes := [Unparsed];
    assert classes == [] + [Unparsed];
    IndicesSnoc([], Unparsed);
    var i, inScope := 1, false;
    while i < |argv|
      invariant 1 <= i <= |argv| && |classes| == i
      invariant ParseFrom(argv, read, accept, i, inScope, Parsed(classes, remaps)) == Parse(argv, read, accept)
      invariant unparsed == IndicesOf(classes, Unparsed) && unparsedRos == IndicesOf(classes, UnparsedRos)
    {
      var w := read(argv[i]);
      if TakesValue(inScope, w) {
        if i + 1 == |argv| || !accept(argv[i], argv[i + 1]) {
          return false, [], [], [];
        }
        if w == RemapFlag {
          remaps := remaps + [argv[i + 1]];
        }
        IndicesSnoc(classes, Consumed);
        IndicesSnoc(classes + [Consumed], Consumed);
        classes := classes + [Consumed] + [Consumed];
        i := i + 2;
      } else {
        var c := ClassOf(inScope, w);
        match c {
          case Unparsed => unparsed := unparsed + [i];
          case UnparsedRos => unparsedRos := unparsedRos + [i];
          case Consumed =>
        }
        IndicesSnoc(classes, c);
        classes := classes + [c];
        inScope := InScopeAfter(inScope, w);
        i := i + 1;
      }
    }
  }

  /** The arguments at the unparsed indices, in order. */
  function Stripped(argv: seq<string>, classes: seq<Class>): (r: seq<string>)
    requires |classes| == |argv|
    ensures |r| == |IndicesOf(classes, Unparsed)|
    ensures forall i :: 0 <= i < |r| ==> r[i] == argv[IndicesOf(classes, Unparsed)[i]]
  {
    var ix := IndicesOf(classes, Unparsed);
    seq(|ix|, i requires 0 <= i < |ix| => argv[ix[i]])
  }

  /** rcl_remove_ros_arguments */
  method RemoveRosArguments(argv: seq<string>, unparsed: seq<nat>, ghost classes: seq<Class>) returns (r: seq<string>)
    requires |classes| == |argv| && unparsed == IndicesOf(classes, Unparsed)
    ensures r == Stripped(argv, classes)
  {
    r := [];
    for i := 0 to |unparsed|
      invariant |r| == i && forall j :: 0 <= j < i ==> r[j] == argv[unparsed[j]]
    {
      r := r + [argv[unparsed[i]]];
    }
  }

  // ----- every index gets one class -----

  lemma {:induction false} ParseFromExtends(
    argv: seq<string>, read: Reading, accept: Accept, i: nat, inScope: bool, p: Parsed)
    requires i <= |argv| && |p.classes| == i
    ensures var r := ParseFrom(argv, read, accept, i, inScope, p);
            r.Ok? ==> |r.value.classes| == |argv| && p.classes <= r.value.classes
    decreases |argv| - i
  {
    if i == |argv| {
    } else {
      var w := read(argv[i]);
      if TakesValue(inScope, w) {
        if i + 1 < |argv| && accept(argv[i], argv[i + 1]) {
          ParseFromExtends(argv, read, accept, i + 2, true, WithValue(p, w, argv[i + 1]));
        }
      } else {
        ParseFromExtends(argv, read, accept, i + 1, InScopeAfter(inScope, w), Then(p, ClassOf(inScope, w)));
      }
    }
  }

  /** Main result: a successful parse puts every index of argv in exactly one of three classes, and
      the process name among the unparsed. */
  lemma ParseClassifiesAll(argv: seq<string>, read: Reading, accept: Accept)
    requires Parse(argv, read, accept).Ok?
    ensures var cs := Parse(argv, read, accept).value.classes;
            && |cs| == |argv|
            && (argv != [] ==> cs[0] == Unparsed && 0 in IndicesOf(cs, Unparsed))
            && |IndicesOf(cs, Unparsed)| + |IndicesOf(cs, UnparsedRos)| + |IndicesOf(cs, Consumed)| == |argv|
  {
    if argv != [] {
      ParseFromExtends(argv, read, accept, 1, false, Parsed([Unparsed], []));
    }
    IndicesCoverAll(Parse(argv, read, accept).value.classes);
    IndicesAre(Parse(argv, read, accept).value.classes, Unparsed);
  }

  lemma {:induction false} IndicesCoverAll(cs: seq<Class>)
    ensures |IndicesOf(cs, Unparsed)| + |IndicesOf(cs, UnparsedRos)| + |IndicesOf(cs, Consumed)| == |cs|
    decreases |cs|
  {
    if cs == [] {
    } else {
      IndicesCoverAll(cs[..|cs| - 1]);
    }
  }

  // ----- which indices are unparsed -----

  /** Every `--ros-args` before index `i` has been closed by a `--` before `i`. */
  ghost predicate Outside(argv: seq<string>, read: Reading, i: nat)
    requires i <= |argv|
  {
    forall j :: 1 <= j < i && read(argv[j]) == OpenScope ==> ClosedBefore(argv, read, j, i)
  }

  ghost predicate ClosedBefore(argv: seq<string>, read: Reading, j: nat, i: nat)
    requires i <= |argv|
  {
    exists k :: j < k < i && read(argv[k]) == CloseScope
  }

  lemma OutsideStep(argv: seq<string>, read: Reading, i: nat)
    requires 1 <= i < |argv|
    ensures Outside(argv, read, i + 1) <==>
            read(argv[i]) != OpenScope && (Outside(argv, read, i) || read(argv[i]) == CloseScope)
  {
    forall j | 1 <= j < i
      ensures ClosedBefore(argv, read, j, i + 1) <==> ClosedBefore(argv, read, j, i) || read(argv[i]) == CloseScope
    {
      if k :| j < k < i + 1 && read(argv[k]) == CloseScope {
        assert k < i ==> ClosedBefore(argv, read, j, i);
      }
    }
  }

  /** Whether the argument at `i` stands inside a scope, counted word by word. */
  predicate ScopeAt(argv: seq<string>, read: Reading, i: nat)
    requires i <= |argv|
    decreases i
  {
    i > 1 && InScopeAfter(ScopeAt(argv, read, i - 1), read(argv[i - 1]))
  }

  lemma {:induction false} ScopeIffNotOutside(argv: seq<string>, read: Reading, i: nat)
    requires 1 <= i <= |argv|
    ensures ScopeAt(argv, read, i) <==> !Outside(argv, read, i)
    decreases i
  {
    if i > 1 {
      ScopeIffNotOutside(argv, read, i - 1);
      OutsideStep(argv, read, i - 1);
    }
  }

  predicate ClassAgrees(argv: seq<string>, read: Reading, k: nat, c: Class)
    requires k < |argv|
  {
    c == Unparsed <==> !ScopeAt(argv, read, k) && read(argv[k]) != OpenScope
  }

  /** From index `i` on, some flag takes a `--` as its value with more arguments behind it, the next
      of which does not open a scope. */
  predicate HidesEnd(argv: seq<string>, read: Reading, i: nat, inScope: bool)
    requires i <= |argv|
    decreases |argv| - i
  {
    if i == |argv| then false
    else if !TakesValue(inScope, read(argv[i])) then
      HidesEnd(argv, read, i + 1, InScopeAfter(inScope, read(argv[i])))
    else
      && i + 2 < |argv|
      && ((read(argv[i + 1]) == CloseScope && read(argv[i + 2]) != OpenScope) || HidesEnd(argv, read, i + 2, true))
  }

  /** Parsing and word count agree about the scope at `i`, or do not need to. */
  predicate InStep(argv: seq<string>, read: Reading, i: nat, inScope: bool)
    requires i <= |argv|
  {
    inScope == ScopeAt(argv, read, i) || i == |argv| || read(argv[i]) == OpenScope
  }

  lemma {:induction false} ParseFromFollowsScopes(
    argv: seq<string>, read: Reading, accept: Accept, i: nat, inScope: bool, p: Parsed, k: nat)
    requires 1 <= i <= |argv| && |p.classes| == i && InStep(argv, read, i, inScope)
    requires !HidesEnd(argv, read, i, inScope)
    requires k < |argv| && (k < i ==> ClassAgrees(argv, read, k, p.classes[k]))
    ensures var r := ParseFrom(argv, read, accept, i, inScope, p);
            r.Ok? ==> |r.value.classes| == |argv| && ClassAgrees(argv, read, k, r.value.classes[k])
    decreases |argv| - i
  {
    if i == |argv| {
    } else {
      var w := read(argv[i]);
      if TakesValue(inScope, w) {
        if i + 1 < |argv| && accept(argv[i], argv[i + 1]) {
          assert ScopeAt(argv, read, i + 1);
          ParseFromFollowsScopes(argv, read, accept, i + 2, true, WithValue(p, w, argv[i + 1]), k);
        }
      } else {
        ParseFromFollowsScopes(argv, read, accept, i + 1, InScopeAfter(inScope, w), Then(p, ClassOf(inScope, w)), k);
      }
    }
  }

  /** What follows a hidden end is not left unparsed, although it stands outside. */
  lemma {:induction false} HiddenEndMisleads(
    argv: seq<string>, read: Reading, accept: Accept, i: nat, inScope: bool, p: Parsed) returns (k: nat)
    requires 1 <= i <= |argv| && |p.classes| == i && InStep(argv, read, i, inScope)
    requires HidesEnd(argv, read, i, inScope) && ParseFrom(argv, read, accept, i, inScope, p).Ok?
    ensures var cs := ParseFrom(argv, read, accept, i, inScope, p).value.classes;
            1 <= k < |argv| == |cs| && !ClassAgrees(argv, read, k, cs[k])
    decreases |argv| - i
  {
    var w := read(argv[i]);
    if !TakesValue(inScope, w) {
      k := HiddenEndMisleads(argv, read, accept, i + 1, InScopeAfter(inScope, w), Then(p, ClassOf(inScope, w)));
    } else {
      assert ScopeAt(argv, read, i + 1);
      var q := WithValue(p, w, argv[i + 1]);
      if read(argv[i + 1]) == CloseScope && read(argv[i + 2]) != OpenScope {
        k := i + 2;
        InsideIsNotUnparsed(argv, read, accept, k, q);
      } else {
        k := HiddenEndMisleads(argv, read, accept, i + 2, true, q);
      }
    }
  }

  lemma InsideIsNotUnparsed(argv: seq<string>, read: Reading, accept: Accept, i: nat, p: Parsed)
    requires i < |argv| && |p.classes| == i && ParseFrom(argv, read, accept, i, true, p).Ok?
    ensures var cs := ParseFrom(argv, read, accept, i, true, p).value.classes;
            |cs| == |argv| && cs[i] != Unparsed
  {
    var w := read(argv[i]);
    if TakesValue(true, w) {
      ParseFromExtends(argv, read, accept, i + 2, true, WithValue(p, w, argv[i + 1]));
    } else {
      ParseFromExtends(argv, read, accept, i + 1, InScopeAfter(true, w), Then(p, ClassOf(true, w)));
    }
  }

  /** The unparsed arguments are exactly the process name and those outside every
      `--ros-args ... --` scope. */
  ghost predicate UnparsedAreOutside(argv: seq<string>, read: Reading, cs: seq<Class>)
    requires |cs| == |argv|
  {
    forall k :: 0 <= k < |argv| ==>
      (cs[k] == Unparsed <==> k == 0 || (Outside(argv, read, k) && read(argv[k]) != OpenScope))
  }

  /** Main result: the unparsed arguments are exactly those outside every scope, unless a flag takes
      as its value a `--` that would have ended its scope, with an argument behind it that does not
      open a scope again; and then they are not. */
  lemma UnparsedIffOutside(argv: seq<string>, read: Reading, accept: Accept)
    requires argv != [] && Parse(argv, read, accept).Ok?
    ensures var cs := Parse(argv, read, accept).value.classes;
            && |cs| == |argv|
            && (UnparsedAreOutside(argv, read, cs) <==> !HidesEnd(argv, read, 1, false))
  {
    var cs := Parse(argv, read, accept).value.classes;
    var start := Parsed([Unparsed], []);
    ParseClassifiesAll(argv, read, accept);
    if HidesEnd(argv, read, 1, false) {
      var k := HiddenEndMisleads(argv, read, accept, 1, false, start);
      ScopeIffNotOutside(argv, read, k);
    } else {
      forall k | 0 <= k < |argv|
        ensures cs[k] == Unparsed <==> k == 0 || (Outside(argv, read, k) && read(argv[k]) != OpenScope)
      {
        if k > 0 {
          ParseFromFollowsScopes(argv, read, accept, 1, false, start, k);
          ScopeIffNotOutside(argv, read, k);
        }
      }
    }
  }

  // ----- what is consumed, and the order of the rules -----

  /** Whether the next argument stands inside a scope, and whether it is the value of a flag. */
  datatype Place = Place(inScope: bool, isValue: bool)

  function PlaceAfter(at: Place, w: Word): Place {
    if at.isValue then Place(true, false)
    else Place(InScopeAfter(at.inScope, w), TakesValue(at.inScope, w))
  }

  /** The place of the argument at `k`, reading argument after argument. */
  function PlaceOf(argv: seq<string>, read: Reading, k: nat): Place
    requires k <= |argv|
    decreases k
  {
    if k <= 1 then Place(false, false) else PlaceAfter(PlaceOf(argv, read, k - 1), read(argv[k - 1]))
  }

  /** The class of the argument at `k`, from its place and its word. */
  predicate HasClass(argv: seq<string>, read: Reading, k: nat, c: Class)
    requires k < |argv|
  {
    var at, w := PlaceOf(argv, read, k), read(argv[k]);
    && (c == Unparsed <==> k == 0 || (!at.inScope && w != OpenScope))
    && (c == UnparsedRos <==> k > 0 && at.inScope && !at.isValue && w == Other)
  }

  lemma {:induction false} ClassFollowsPlace(
    argv: seq<string>, read: Reading, accept: Accept, i: nat, inScope: bool, p: Parsed, k: nat)
    requires 1 <= i <= |argv| && |p.classes| == i && PlaceOf(argv, read, i) == Place(inScope, false)
    requires k < |argv| && (k < i ==> HasClass(argv, read, k, p.classes[k]))
    ensures var r := ParseFrom(argv, read, accept, i, inScope, p);
            r.Ok? ==> |r.value.classes| == |argv| && HasClass(argv, read, k, r.value.classes[k])
    decreases |argv| - i
  {
    if i == |argv| {
    } else {
      var w := read(argv[i]);
      assert PlaceOf(argv, read, i + 1) == PlaceAfter(Place(inScope, false), w);
      if !TakesValue(inScope, w) {
        ClassFollowsPlace(argv, read, accept, i + 1, InScopeAfter(inScope, w), Then(p, ClassOf(inScope, w)), k);
      } else if i + 1 < |argv| && accept(argv[i], argv[i + 1]) {
        assert PlaceOf(argv, read, i + 2) == Place(true, false);
        ClassFollowsPlace(argv, read, accept, i + 2, true, WithValue(p, w, argv[i + 1]), k);
      }
    }
  }

  /** The value of a remap flag stands at `k`. */
  predicate IsRule(argv: seq<string>, read: Reading, k: nat)
    requires k < |argv|
  {
    k > 0 && PlaceOf(argv, read, k).isValue && read(argv[k - 1]) == RemapFlag
  }

  /** The places of the remap rules before `n`. */
  function RulePlaces(argv: seq<string>, read: Reading, n: nat): (ks: seq<nat>)
    requires n <= |argv|
    ensures forall i :: 0 <= i < |ks| ==> ks[i] < n
    decreases n
  {
    if n == 0 then [] else RulePlaces(argv, read, n - 1) + if IsRule(argv, read, n - 1) then [n - 1] else []
  }

  lemma {:induction false} RulePlacesAre(argv: seq<string>, read: Reading, n: nat)
    requires n <= |argv|
    ensures var ks := RulePlaces(argv, read, n);
            && (forall k :: 0 <= k < n ==> (k in ks <==> IsRule(argv, read, k)))
            && (forall i, j :: 0 <= i < j < |ks| ==> ks[i] < ks[j])
    decreases n
  {
    if n == 0 {
    } else {
      RulePlacesAre(argv, read, n - 1);
      var before := RulePlaces(argv, read, n - 1);
      forall k | 0 <= k < n ensures k in RulePlaces(argv, read, n) <==> IsRule(argv, read, k) {
        assert k in RulePlaces(argv, read, n) <==> k in before || (k == n - 1 && IsRule(argv, read, k));
      }
    }
  }

  /** The arguments at the places of the remap rules before `n`. */
  function RulesUpTo(argv: seq<string>, read: Reading, n: nat): seq<string>
    requires n <= |argv|
  {
    var ks := RulePlaces(argv, read, n);
    seq(|ks|, i requires 0 <= i < |ks| => argv[ks[i]])
  }

  lemma RulesStep(argv: seq<string>, read: Reading, n: nat)
    requires n < |argv|
    ensures RulesUpTo(argv, read, n + 1) ==
            RulesUpTo(argv, read, n) + if IsRule(argv, read, n) then [argv[n]] else []
  {
  }

  lemma {:induction false} RulesFollowPlaces(
    argv: seq<string>, read: Reading, accept: Accept, i: nat, inScope: bool, p: Parsed)
    requires 1 <= i <= |argv| && PlaceOf(argv, read, i) == Place(inScope, false)
    requires p.remaps == RulesUpTo(argv, read, i)
    ensures var r := ParseFrom(argv, read, accept, i, inScope, p);
            r.Ok? ==> r.value.remaps == RulesUpTo(argv, read, |argv|)
    decreases |argv| - i
  {
    if i == |argv| {
    } else {
      var w := read(argv[i]);
      assert PlaceOf(argv, read, i + 1) == PlaceAfter(Place(inScope, false), w);
      RulesStep(argv, read, i);
      assert RulesUpTo(argv, read, i + 1) == p.remaps;
      if !TakesValue(inScope, w) {
        RulesFollowPlaces(argv, read, accept, i + 1, InScopeAfter(inScope, w), Then(p, ClassOf(inScope, w)));
      } else if i + 1 < |argv| && accept(argv[i], argv[i + 1]) {
        assert PlaceOf(argv, read, i + 2) == Place(true, false);
        RulesStep(argv, read, i + 1);
        assert RulesUpTo(argv, read, i + 2) == WithValue(p, w, argv[i + 1]).remaps;
        RulesFollowPlaces(argv, read, accept, i + 2, true, WithValue(p, w, argv[i + 1]));
      }
    }
  }

  /** Main result: the remap rules are exactly the arguments that are values of remap flags, in the
      order of argv; what is left unparsed for ROS are exactly the arguments inside a scope that are
      neither values nor known. */
  lemma RulesAreInOrder(argv: seq<string>, read: Reading, accept: Accept, k: nat)
    requires Parse(argv, read, accept).Ok? && k < |argv|
    ensures var parsed, ks := Parse(argv, read, accept).value, RulePlaces(argv, read, |argv|);
            && parsed.remaps == seq(|ks|, i requires 0 <= i < |ks| => argv[ks[i]])
            && (forall i, j :: 0 <= i < j < |ks| ==> ks[i] < ks[j])
            && (k in ks <==> IsRule(argv, read, k))
            && |parsed.classes| == |argv| && HasClass(argv, read, k, parsed.classes[k])
  {
    var start := Parsed([Unparsed], []);
    assert PlaceOf(argv, read, 1) == Place(false, false);
    assert !IsRule(argv, read, 0) && RulePlaces(argv, read, 0) == [];
    RulesStep(argv, read, 0);
    RulesFollowPlaces(argv, read, accept, 1, false, start);
    RulePlacesAre(argv, read, |argv|);
    ClassFollowsPlace(argv, read, accept, 1, false, start, k);
  }

  // ----- stripping twice -----

  ghost predicate OpensNoScope(argv: seq<string>, read: Reading, cs: seq<Class>)
    requires |cs| <= |argv|
  {
    forall k :: 1 <= k < |cs| && cs[k] == Unparsed ==> read(argv[k]) != OpenScope
  }

  lemma {:induction false} UnparsedOpensNoScope(
    argv: seq<string>, read: Reading, accept: Accept, i: nat, inScope: bool, p: Parsed)
    requires 1 <= i <= |argv| && |p.classes| == i && OpensNoScope(argv, read, p.classes)
    ensures var r := ParseFrom(argv, read, accept, i, inScope, p);
            r.Ok? ==> |r.value.classes| == |argv| && OpensNoScope(argv, read, r.value.classes)
    decreases |argv| - i
  {
    if i == |argv| {
    } else {
      var w := read(argv[i]);
      if TakesValue(inScope, w) {
        if i + 1 < |argv| && accept(argv[i], argv[i + 1]) {
          UnparsedOpensNoScope(argv, read, accept, i + 2, true, WithValue(p, w, argv[i + 1]));
        }
      } else {
        UnparsedOpensNoScope(argv, read, accept, i + 1, InScopeAfter(inScope, w), Then(p, ClassOf(inScope, w)));
      }
    }
  }

  function AllUnparsed(n: nat): (cs: seq<Class>)
    ensures |cs| == n && forall i :: 0 <= i < n ==> cs[i] == Unparsed
  {
    seq(n, _ => Unparsed)
  }

  lemma {:induction false} WithoutScopesAllUnparsed(argv: seq<string>, read: Reading, accept: Accept, i: nat)
    requires 1 <= i <= |argv| && forall k :: 1 <= k < |argv| ==> read(argv[k]) != OpenScope
    ensures ParseFrom(argv, read, accept, i, false, Parsed(AllUnparsed(i), [])) == Ok(Parsed(AllUnparsed(|argv|), []))
    decreases |argv| - i
  {
    if i == |argv| {
    } else {
      assert AllUnparsed(i) + [Unparsed] == AllUnparsed(i + 1);
      WithoutScopesAllUnparsed(argv, read, accept, i + 1);
    }
  }

  lemma {:induction false} AllIndices(n: nat)
    ensures |IndicesOf(AllUnparsed(n), Unparsed)| == n
    ensures forall i :: 0 <= i < n ==> IndicesOf(AllUnparsed(n), Unparsed)[i] == i
    decreases n
  {
    if n == 0 {
    } else {
      AllIndices(n - 1);
      assert AllUnparsed(n)[..n - 1] == AllUnparsed(n - 1);
    }
  }

  /** Main result: parsing stripped arguments succeeds and finds nothing for ROS in them, so
      stripping them again changes nothing.  The process name stays first. */
  lemma StrippingIsIdempotent(argv: seq<string>, read: Reading, accept: Accept)
    requires Parse(argv, read, accept).Ok?
    ensures |Parse(argv, read, accept).value.classes| == |argv|
    ensures var s := Stripped(argv, Parse(argv, read, accept).value.classes);
            && Parse(s, read, accept) == Ok(Parsed(AllUnparsed(|s|), []))
            && Stripped(s, AllUnparsed(|s|)) == s
            && (argv != [] ==> s != [] && s[0] == argv[0])
  {
    ParseClassifiesAll(argv, read, accept);
    var cs := Parse(argv, read, accept).value.classes;
    var s, ix := Stripped(argv, cs), IndicesOf(cs, Unparsed);
    IndicesAre(cs, Unparsed);
    AllIndices(|s|);
    if argv != [] {
      UnparsedOpensNoScope(argv, read, accept, 1, false, Parsed([Unparsed], []));
      assert ix[0] == 0;
      forall k | 1 <= k < |s| ensures read(s[k]) != OpenScope {
        assert ix[0] < ix[k] && cs[ix[k]] == Unparsed;
      }
      assert AllUnparsed(1) == [Unparsed];
      WithoutScopesAllUnparsed(s, read, accept, 1);
    }
  }

  /** With the words of the header: a stripped command line never opens a scope again. */
  lemma StrippedCommandLine(argv: seq<string>, accept: Accept)
    requires Parse(argv, WordOf, accept).Ok?
    ensures |Parse(argv, WordOf, accept).value.classes| == |argv|
    ensures var s := Stripped(argv, Parse(argv, WordOf, accept).value.classes);
            forall k :: 1 <= k < |s| ==> s[k] != "--ros-args"
  {
    ParseClassifiesAll(argv, WordOf, accept);
    var cs := Parse(argv, WordOf, accept).value.classes;
    var s, ix := Stripped(argv, cs), IndicesOf(cs, Unparsed);
    IndicesAre(cs, Unparsed);
    if argv != [] {
      UnparsedOpensNoScope(argv, WordOf, accept, 1, false, Parsed([Unparsed], []));
      forall k | 1 <= k < |s| ensures s[k] != "--ros-args" {
        assert ix[0] < ix[k] && cs[ix[k]] == Unparsed;
      }
    }
  }

  /** A flag that does accept `--` as its value keeps the scope open: the last argument here is
      read as a ROS argument although `--` stands before it. */
  lemma ValueMayHideTheEnd()
    ensures var argv := ["node", "--ros-args", "-e", "--", "x"];
            && Parse(argv, WordOf, (_, _) => true).Ok?
            && Parse(argv, WordOf, (_, _) => true).value.classes ==
               [Unparsed, Consumed, Consumed, Consumed, UnparsedRos]
            && Outside(argv, WordOf, 4)
  {
    var argv, accept := ["node", "--ros-args", "-e", "--", "x"], (_: string, _: string) => true;
    var p1 := Then(Parsed([Unparsed], []), Consumed);
    var p3 := WithValue(p1, ValueFlag, "--");
    assert ParseFrom(argv, WordOf, accept, 4, true, p3) == Ok(Then(p3, UnparsedRos));
    assert ParseFrom(argv, WordOf, accept, 2, true, p1) == Ok(Then(p3, UnparsedRos));
    assert WordOf(argv[3]) == CloseScope;
    forall j | 1 <= j < 4 && WordOf(argv[j]) == OpenScope ensures ClosedBefore(argv, WordOf, j, 4) {
      assert j == 1;
    }
  }
}
