/** Sizing and carving the memory of a message: src/micro_ros_utilities/type_utilities.h, over the
    type descriptions of src/rosidl_typesupport_introspection_c/message_introspection.h.

    The size functions compute with closed formulas; the builder walks the message and carves one
    region after another out of a buffer.  The module proves that they agree.
 */
module MessageMemory {

  /** What a field holds one or several of. */
  datatype Item = Basic(size: nat) | Str | Msg(size: nat, fields: seq<Field>)

  datatype Arity = Single | FixedArray(n: nat) | Sequence

  datatype Field = Field(name: string, item: Item, arity: Arity)

  datatype Rule = Rule(name: string, size: nat)

  /** A target platform: the size of a string record and the alignment of allocations. */
  datatype Target = Target(stringSize: nat, alignment: nat)

  datatype Conf = Conf(maxString: nat, maxMsgSequence: nat, maxBasicSequence: nat, rules: seq<Rule>)

  // micro_ros_utilities_memory_conf_default
  const DEFAULT := Conf(20, 5, 5, [])

  /** A capacity of zero stands for the default. */
  function Effective(c: Conf): Conf {
    Conf(if c.maxString == 0 then DEFAULT.maxString else c.maxString,
         if c.maxMsgSequence == 0 then DEFAULT.maxMsgSequence else c.maxMsgSequence,
         if c.maxBasicSequence == 0 then DEFAULT.maxBasicSequence else c.maxBasicSequence,
         c.rules)
  }

  /** The size of the first rule for `name`, or `default`. */
  function RuleOr(rules: seq<Rule>, name: string, default: nat): nat
    decreases rules
  {
    if rules == [] then default
    else if rules[0].name == name then rules[0].size
    else RuleOr(rules[1..], name, default)
  }

  function SizeOf(t: Target, item: Item): nat {
    match item
    case Basic(size) => size
    case Str => t.stringSize
    case Msg(size, _) => size
  }

  // ----- what is allocated, one request per region -----

  /** Text of a string field, items of a sequence field, or text of a string inside a sequence. */
  datatype Use = Text | BasicItems | MsgItems | InnerText

  datatype Request = Request(name: string, use: Use, count: nat, unit: nat, bytes: nat)

  function Ask(name: string, use: Use, count: nat, unit: nat): Request {
    Request(name, use, count, unit, count * unit)
  }

  /** The capacity that the configuration gives a use of the field called `name`. */
  function Capacity(c: Conf, name: string, use: Use): nat {
    match use
    case Text => RuleOr(c.rules, name, c.maxString)
    case BasicItems => RuleOr(c.rules, name, c.maxBasicSequence)
    case MsgItems => RuleOr(c.rules, name, c.maxMsgSequence)
    case InnerText => c.maxString
  }

  function ItemsUse(item: Item): Use {
    if item.Msg? then MsgItems else BasicItems
  }

  function Repeat(rs: seq<Request>, n: nat): seq<Request>
    decreases n
  {
    if n == 0 then [] else Repeat(rs, n - 1) + rs
  }

  /** The requests for the first `n` fields of message `m`; the prefix ends in a dot unless `m` is the
      message itself. */
  function MsgRequests(t: Target, c: Conf, prefix: string, m: Item, n: nat): seq<Request>
    requires m.Msg? && n <= |m.fields|
    decreases m, 0, n
  {
    if n == 0 then [] else
      MsgRequests(t, c, prefix, m, n - 1)
      + FieldRequests(t, c, prefix + m.fields[n - 1].name, m.fields[n - 1])
  }

  function ItemRequests(t: Target, c: Conf, name: string, item: Item, text: Use): seq<Request>
    decreases item, 1, 0
  {
    match item
    case Basic(_) => []
    case Str => [Ask(name, text, Capacity(c, name, text), 1)]
    case Msg(_, fields) => MsgRequests(t, c, name + ".", item, |fields|)
  }

  function FieldRequests(t: Target, c: Conf, name: string, f: Field): seq<Request>
    decreases f, 2, 0
  {
    match f.arity
    case Single => ItemRequests(t, c, name, f.item, Text)
    case FixedArray(n) => Repeat(ItemRequests(t, c, name, f.item, Text), n)
    case Sequence =>
      var cap := Capacity(c, name, ItemsUse(f.item));
      [Ask(name, ItemsUse(f.item), cap, SizeOf(t, f.item))] + Repeat(ItemRequests(t, c, name, f.item, InnerText), cap)
  }

  /** The region is sized by the first rule for its field, or by the default for what it holds.  Text
      of strings inside a sequence always gets the default, since a rule for a sequence gives the
      number of its items. */
  predicate Sized(c: Conf, r: Request) {
    && r.count == Capacity(c, r.name, r.use)
    && r.bytes == r.count * r.unit
    && (r.use == Text || r.use == InnerText ==> r.unit == 1)
  }

  lemma {:induction false} RepeatMembers(rs: seq<Request>, n: nat)
    ensures forall r :: r in Repeat(rs, n) ==> r in rs
    decreases n
  {
    if n == 0 {
    } else {
      RepeatMembers(rs, n - 1);
    }
  }

  /** Main result on capacities: every region requested for a message is sized by its rule. */
  lemma {:induction false} MsgRequestsAreSized(t: Target, c: Conf, prefix: string, m: Item, n: nat)
    requires m.Msg? && n <= |m.fields|
    ensures forall r :: r in MsgRequests(t, c, prefix, m, n) ==> Sized(c, r)
    decreases m, 0, n
  {
    if n == 0 {
    } else {
      MsgRequestsAreSized(t, c, prefix, m, n - 1);
      FieldRequestsAreSized(t, c, prefix + m.fields[n - 1].name, m.fields[n - 1]);
    }
  }

  lemma {:induction false} ItemRequestsAreSized(t: Target, c: Conf, name: string, item: Item, text: Use)
    requires text == Text || text == InnerText
    ensures forall r :: r in ItemRequests(t, c, name, item, text) ==> Sized(c, r)
    decreases item, 1, 0
  {
    if item.Msg? {
      MsgRequestsAreSized(t, c, name + ".", item, |item.fields|);
    }
  }

  lemma {:induction false} FieldRequestsAreSized(t: Target, c: Conf, name: string, f: Field)
    ensures forall r :: r in FieldRequests(t, c, name, f) ==> Sized(c, r)
    decreases f, 2, 0
  {
    match f.arity
    case Single => ItemRequestsAreSized(t, c, name, f.item, Text);
    case FixedArray(n) =>
      ItemRequestsAreSized(t, c, name, f.item, Text);
      RepeatMembers(ItemRequests(t, c, name, f.item, Text), n);
    case Sequence =>
      ItemRequestsAreSized(t, c, name, f.item, InnerText);
      RepeatMembers(ItemRequests(t, c, name, f.item, InnerText), Capacity(c, name, ItemsUse(f.item)));
  }

  // ----- what the configuration means for a region -----

  predicate HasRule(rules: seq<Rule>, name: string) {
    exists i :: 0 <= i < |rules| && rules[i].name == name
  }

  /** Rule `i` is the first for the field. */
  predicate IsFirstRule(rules: seq<Rule>, name: string, i: nat) {
    i < |rules| && rules[i].name == name && forall j :: 0 <= j < i ==> rules[j].name != name
  }

  /** The region has the size of the first rule for its field; without a rule, or for text inside a
      sequence, the default of the configuration, and where that is zero 20, 5 or 5. */
  ghost predicate FollowsRules(conf: Conf, r: Request) {
    && (forall i: nat :: r.use != InnerText && IsFirstRule(conf.rules, r.name, i) ==> r.count == conf.rules[i].size)
    && (r.use == InnerText || !HasRule(conf.rules, r.name) ==>
          r.count == match r.use
                     case Text => if conf.maxString == 0 then 20 else conf.maxString
                     case InnerText => if conf.maxString == 0 then 20 else conf.maxString
                     case BasicItems => if conf.maxBasicSequence == 0 then 5 else conf.maxBasicSequence
                     case MsgItems => if conf.maxMsgSequence == 0 then 5 else conf.maxMsgSequence)
    && r.bytes == r.count * r.unit
  }

  lemma {:induction false} FirstRuleHolds(rules: seq<Rule>, name: string, default: nat, i: nat)
    requires IsFirstRule(rules, name, i)
    ensures RuleOr(rules, name, default) == rules[i].size
    decreases rules
  {
    if i == 0 {
    } else {
      assert IsFirstRule(rules[1..], name, i - 1);
      FirstRuleHolds(rules[1..], name, default, i - 1);
    }
  }

  lemma {:induction false} NoRuleGivesDefault(rules: seq<Rule>, name: string, default: nat)
    requires !HasRule(rules, name)
    ensures RuleOr(rules, name, default) == default
    decreases rules
  {
    if rules == [] {
    } else {
      forall i | 0 <= i < |rules| - 1 ensures rules[1..][i].name != name {
        assert rules[i + 1].name != name;
      }
      NoRuleGivesDefault(rules[1..], name, default);
    }
  }

  lemma SizedFollowsRules(conf: Conf, r: Request)
    requires Sized(Effective(conf), r)
    ensures FollowsRules(conf, r)
  {
    var c := Effective(conf);
    var default := if r.use == Text then c.maxString
                   else if r.use == BasicItems then c.maxBasicSequence else c.maxMsgSequence;
    forall i: nat | r.use != InnerText && IsFirstRule(conf.rules, r.name, i) ensures r.count == conf.rules[i].size {
      FirstRuleHolds(conf.rules, r.name, default, i);
    }
    if !HasRule(conf.rules, r.name) {
      NoRuleGivesDefault(conf.rules, r.name, default);
    }
  }

  // ----- which fields get regions -----

  /** A field of the message, or of a message in such a field, and so on. */
  predicate IsPath(m: Item, path: seq<Field>)
    decreases |path|
  {
    && m.Msg? && path != [] && path[0] in m.fields
    && (|path| > 1 ==> IsPath(path[0].item, path[1..]))
  }

  /** The fully qualified name of a field. */
  function Dotted(path: seq<Field>): string
    requires path != []
  {
    if |path| == 1 then path[0].name else path[0].name + "." + Dotted(path[1..])
  }

  /** A region that the field needs: text for a string, items for a sequence, and text for each string
      in a sequence; a sequence's unit is the size of its items. */
  predicate IsNeededBy(t: Target, f: Field, r: Request) {
    match r.use
    case Text => f.item.Str? && !f.arity.Sequence? && r.unit == 1
    case InnerText => f.item.Str? && f.arity.Sequence? && r.unit == 1
    case BasicItems =>
      f.arity.Sequence? && ((f.item.Basic? && r.unit == f.item.size) || (f.item.Str? && r.unit == t.stringSize))
    case MsgItems => f.arity.Sequence? && f.item.Msg? && r.unit == f.item.size
  }

  lemma {:induction false} MsgRequestPath(t: Target, c: Conf, prefix: string, m: Item, n: nat, r: Request)
    returns (path: seq<Field>)
    requires m.Msg? && n <= |m.fields| && r in MsgRequests(t, c, prefix, m, n)
    ensures IsPath(m, path) && r.name == prefix + Dotted(path) && IsNeededBy(t, path[|path| - 1], r)
    decreases m, 0, n
  {
    if r in MsgRequests(t, c, prefix, m, n - 1) {
      path := MsgRequestPath(t, c, prefix, m, n - 1, r);
    } else {
      path := FieldRequestPath(t, c, prefix, m.fields[n - 1], r);
    }
  }

  lemma {:induction false} FieldRequestPath(t: Target, c: Conf, prefix: string, f: Field, r: Request)
    returns (path: seq<Field>)
    requires r in FieldRequests(t, c, prefix + f.name, f)
    ensures path != [] && path[0] == f && (|path| > 1 ==> IsPath(f.item, path[1..]))
    ensures r.name == prefix + Dotted(path) && IsNeededBy(t, path[|path| - 1], r)
    decreases f, 2, 0
  {
    var name, text := prefix + f.name, if f.arity.Sequence? then InnerText else Text;
    var cap := Capacity(c, name, ItemsUse(f.item));
    RepeatMembers(ItemRequests(t, c, name, f.item, text), if f.arity.FixedArray? then f.arity.n else cap);
    if f.arity.Sequence? && r == Ask(name, ItemsUse(f.item), cap, SizeOf(t, f.item)) {
      path := [f];
    } else {
      assert r in ItemRequests(t, c, name, f.item, text);
      if f.item.Msg? {
        var rest := MsgRequestPath(t, c, name + ".", f.item, |f.item.fields|, r);
        path := [f] + rest;
        assert path[1..] == rest;
        assert (name + ".") + Dotted(rest) == prefix + (f.name + "." + Dotted(rest));
      } else {
        path := [f];
      }
    }
  }

  /** The field is there at least once. */
  predicate Occurs(c: Conf, name: string, f: Field) {
    match f.arity
    case Single => true
    case FixedArray(n) => n > 0
    case Sequence => Capacity(c, name, ItemsUse(f.item)) > 0
  }

  /** Every field on the way to the last one occurs. */
  predicate Reached(c: Conf, prefix: string, path: seq<Field>)
    decreases |path|
  {
    |path| > 1 ==> Occurs(c, prefix + path[0].name, path[0]) && Reached(c, prefix + path[0].name + ".", path[1..])
  }

  lemma {:induction false} InRepeat(rs: seq<Request>, n: nat, r: Request)
    requires n > 0 && r in rs
    ensures r in Repeat(rs, n)
    decreases n
  {
    if n == 1 {
      assert Repeat(rs, 1) == Repeat(rs, 0) + rs;
    } else {
      InRepeat(rs, n - 1, r);
    }
  }

  lemma {:induction false} InMsgRequests(t: Target, c: Conf, prefix: string, m: Item, n: nat, i: nat, r: Request)
    requires m.Msg? && i < n <= |m.fields|
    requires r in FieldRequests(t, c, prefix + m.fields[i].name, m.fields[i])
    ensures r in MsgRequests(t, c, prefix, m, n)
    decreases n
  {
    if i == n - 1 {
    } else {
      InMsgRequests(t, c, prefix, m, n - 1, i, r);
    }
  }

  /** Main result on fields, the other way: every sequence field that is reached gets a region for its
      items, and every string field that occurs gets one for its text. */
  lemma {:induction false} PathHasRegion(t: Target, c: Conf, prefix: string, m: Item, path: seq<Field>, text: bool)
    returns (r: Request)
    requires IsPath(m, path) && Reached(c, prefix, path)
    requires var f := path[|path| - 1];
             if text then f.item.Str? && Occurs(c, prefix + Dotted(path), f) else f.arity.Sequence?
    ensures r in MsgRequests(t, c, prefix, m, |m.fields|) && r.name == prefix + Dotted(path)
    ensures IsNeededBy(t, path[|path| - 1], r) && (text <==> r.use == Text || r.use == InnerText)
    decreases |path|
  {
    var f := path[0];
    var name := prefix + f.name;
    var i :| 0 <= i < |m.fields| && m.fields[i] == f;
    var use := if f.arity.Sequence? then InnerText else Text;
    var count := match f.arity
                 case Single => 1
                 case FixedArray(n) => n
                 case Sequence => Capacity(c, name, ItemsUse(f.item));
    if |path| > 1 {
      assert prefix + Dotted(path) == (name + ".") + Dotted(path[1..]);
      r := PathHasRegion(t, c, name + ".", f.item, path[1..], text);
      InRepeat(ItemRequests(t, c, name, f.item, use), count, r);
    } else if text {
      r := Ask(name, use, Capacity(c, name, use), 1);
      InRepeat(ItemRequests(t, c, name, f.item, use), count, r);
    } else {
      r := Ask(name, ItemsUse(f.item), Capacity(c, name, ItemsUse(f.item)), SizeOf(t, f.item));
    }
    InMsgRequests(t, c, prefix, m, |m.fields|, i, r);
  }

  /** A fixed array of n + 1 is one of n and one more; a sequence is a region for its items and then a
      fixed array of as many as fit, but for the text of strings. */
  lemma ArraysRepeat(t: Target, c: Conf, name: string, f: Field, n: nat)
    ensures FieldRequests(t, c, name, f.(arity := FixedArray(0))) == []
    ensures FieldRequests(t, c, name, f.(arity := FixedArray(n + 1))) ==
            FieldRequests(t, c, name, f.(arity := FixedArray(n))) + FieldRequests(t, c, name, f.(arity := Single))
    ensures !f.item.Str? ==>
              var cap := Capacity(c, name, ItemsUse(f.item));
              FieldRequests(t, c, name, f.(arity := Sequence)) ==
              [Ask(name, ItemsUse(f.item), cap, SizeOf(t, f.item))]
              + FieldRequests(t, c, name, f.(arity := FixedArray(cap)))
  {
  }

  // ----- the size functions -----

  /** The size formulas: `slack` bytes are reserved with every region. */
  function MsgSize(t: Target, c: Conf, prefix: string, m: Item, n: nat, slack: nat): nat
    requires m.Msg? && n <= |m.fields|
    decreases m, 0, n
  {
    if n == 0 then 0 else
      MsgSize(t, c, prefix, m, n - 1, slack)
      + FieldSize(t, c, prefix + m.fields[n - 1].name, m.fields[n - 1], slack)
  }

  function ItemSize(t: Target, c: Conf, name: string, item: Item, text: Use, slack: nat): nat
    decreases item, 1, 0
  {
    match item
    case Basic(_) => 0
    case Str => Capacity(c, name, text) + slack
    case Msg(_, fields) => MsgSize(t, c, name + ".", item, |fields|, slack)
  }

  function FieldSize(t: Target, c: Conf, name: string, f: Field, slack: nat): nat
    decreases f, 2, 0
  {
    match f.arity
    case Single => ItemSize(t, c, name, f.item, Text, slack)
    case FixedArray(n) => n * ItemSize(t, c, name, f.item, Text, slack)
    case Sequence =>
      var cap := Capacity(c, name, ItemsUse(f.item));
      cap * SizeOf(t, f.item) + slack + cap * ItemSize(t, c, name, f.item, InnerText, slack)
  }

  /** micro_ros_utilities_get_dynamic_size */
  function DynamicSize(t: Target, conf: Conf, m: Item): nat
    requires m.Msg?
  {
    MsgSize(t, Effective(conf), "", m, |m.fields|, 0)
  }

  /** micro_ros_utilities_get_static_size: a buffer needs room to align every region. */
  function StaticSize(t: Target, conf: Conf, m: Item): nat
    requires m.Msg? && t.alignment > 0
  {
    MsgSize(t, Effective(conf), "", m, |m.fields|, t.alignment - 1)
  }

  function Total(rs: seq<Request>, slack: nat): nat
    decreases |rs|
  {
    if rs == [] then 0 else Total(rs[..|rs| - 1], slack) + rs[|rs| - 1].bytes + slack
  }

  lemma {:induction false} TotalConcat(a: seq<Request>, b: seq<Request>, slack: nat)
    ensures Total(a + b, slack) == Total(a, slack) + Total(b, slack)
    decreases |b|
  {
    if b == [] {
      assert a + b == a;
    } else {
      assert (a + b)[..|a + b| - 1] == a + b[..|b| - 1];
      TotalConcat(a, b[..|b| - 1], slack);
    }
  }

  lemma OneMoreTime(n: nat, x: nat)
    requires n > 0
    ensures n * x == (n - 1) * x + x
  {
  }

  lemma {:induction false} TotalRepeat(rs: seq<Request>, n: nat, slack: nat)
    ensures Total(Repeat(rs, n), slack) == n * Total(rs, slack)
    decreases n
  {
    if n == 0 {
    } else {
      TotalRepeat(rs, n - 1, slack);
      TotalConcat(Repeat(rs, n - 1), rs, slack);
      OneMoreTime(n, Total(rs, slack));
    }
  }

  lemma TotalOne(r: Request, slack: nat)
    ensures Total([r], slack) == r.bytes + slack
  {
    assert [r][..0] == [];
  }

  /** Main result on sizes: the size formulas add up exactly what the builder asks for. */
  lemma {:induction false} MsgSizeIsTotal(t: Target, c: Conf, prefix: string, m: Item, n: nat, slack: nat)
    requires m.Msg? && n <= |m.fields|
    ensures MsgSize(t, c, prefix, m, n, slack) == Total(MsgRequests(t, c, prefix, m, n), slack)
    decreases m, 0, n
  {
    if n == 0 {
    } else {
      var name := prefix + m.fields[n - 1].name;
      MsgSizeIsTotal(t, c, prefix, m, n - 1, slack);
      FieldSizeIsTotal(t, c, name, m.fields[n - 1], slack);
      TotalConcat(MsgRequests(t, c, prefix, m, n - 1), FieldRequests(t, c, name, m.fields[n - 1]), slack);
    }
  }

  lemma {:induction false} ItemSizeIsTotal(t: Target, c: Conf, name: string, item: Item, text: Use, slack: nat)
    ensures ItemSize(t, c, name, item, text, slack) == Total(ItemRequests(t, c, name, item, text), slack)
    decreases item, 1, 0
  {
    match item
    case Basic(_) =>
    case Str => TotalOne(Ask(name, text, Capacity(c, name, text), 1), slack);
    case Msg(_, fields) => MsgSizeIsTotal(t, c, name + ".", item, |fields|, slack);
  }

  lemma {:induction false} FieldSizeIsTotal(t: Target, c: Conf, name: string, f: Field, slack: nat)
    ensures FieldSize(t, c, name, f, slack) == Total(FieldRequests(t, c, name, f), slack)
    decreases f, 2, 0
  {
    match f.arity
    case Single => ItemSizeIsTotal(t, c, name, f.item, Text, slack);
    case FixedArray(n) =>
      ItemSizeIsTotal(t, c, name, f.item, Text, slack);
      TotalRepeat(ItemRequests(t, c, name, f.item, Text), n, slack);
    case Sequence =>
      var cap := Capacity(c, name, ItemsUse(f.item));
      var items := Ask(name, ItemsUse(f.item), cap, SizeOf(t, f.item));
      ItemSizeIsTotal(t, c, name, f.item, InnerText, slack);
      TotalRepeat(ItemRequests(t, c, name, f.item, InnerText), cap, slack);
      TotalOne(items, slack);
      TotalConcat([items], Repeat(ItemRequests(t, c, name, f.item, InnerText), cap), slack);
  }

  // ----- carving a buffer -----

  datatype Region = Region(request: Request, offset: nat) {
    function End(): nat { offset + request.bytes }
  }

  /** A buffer of `len` bytes at address `base`. */
  datatype Buffer = Buffer(base: nat, len: nat, alignment: nat)

  datatype Carving = Carving(used: nat, regions: seq<Region>, ok: bool)

  const UNTOUCHED := Carving(0, [], true)

  /** How far address `x` is from the next aligned address. */
  function Padding(x: nat, alignment: nat): (p: nat)
    requires alignment > 0
    ensures p < alignment && (x + p) % alignment == 0
  {
    var q := (x + alignment - 1) / alignment;
    Division(x + alignment - 1, alignment);
    MultipleIsAligned(q, alignment);
    q * alignment - x
  }

  lemma Division(x: nat, a: nat)
    requires a > 0
    ensures x / a * a <= x < x / a * a + a
  {
  }

  lemma MultipleIsAligned(q: nat, a: nat)
    requires a > 0
    ensures (q * a) % a == 0
  {
    var y := q * a;
    var d := q - y / a;
    assert d * a == y % a;
    if d >= 1 {
      AtLeastOnce(d, a);
      assert false;
    } else if d <= -1 {
      AtLeastOnce(-d, a);
      assert false;
    }
  }

  lemma AtLeastOnce(d: int, a: nat)
    requires d >= 1
    ensures d * a >= a
  {
  }

  function Serve(b: Buffer, s: Carving, r: Request): Carving
    requires b.alignment > 0
  {
    var offset := s.used + Padding(b.base + s.used, b.alignment);
    if !s.ok || offset + r.bytes > b.len then s.(ok := false)
    else Carving(offset + r.bytes, s.regions + [Region(r, offset)], true)
  }

  function ServeAll(b: Buffer, s: Carving, rs: seq<Request>): Carving
    requires b.alignment > 0
    decreases |rs|
  {
    if rs == [] then s else Serve(b, ServeAll(b, s, rs[..|rs| - 1]), rs[|rs| - 1])
  }

  lemma {:induction false} ServeConcat(b: Buffer, s: Carving, x: seq<Request>, y: seq<Request>)
    requires b.alignment > 0
    ensures ServeAll(b, s, x + y) == ServeAll(b, ServeAll(b, s, x), y)
    decreases |y|
  {
    if y == [] {
      assert x + y == x;
    } else {
      assert (x + y)[..|x + y| - 1] == x + y[..|y| - 1];
      ServeConcat(b, s, x, y[..|y| - 1]);
    }
  }

  class Arena {
    const buffer: Buffer
    var used: nat
    var regions: seq<Region>
    var ok: bool

    ghost function View(): Carving
      reads this
    {
      Carving(used, regions, ok)
    }

    constructor (buffer: Buffer)
      ensures this.buffer == buffer && View() == UNTOUCHED
    {
      this.buffer, used, regions, ok := buffer, 0, [], true;
    }

    method Allocate(r: Request)
      requires buffer.alignment > 0
      modifies this
      ensures View() == Serve(buffer, old(View()), r)
    {
      var offset := used + Padding(buffer.base + used, buffer.alignment);
      if !ok || offset + r.bytes > buffer.len {
        ok := false;
      } else {
        used, regions := offset + r.bytes, regions + [Region(r, offset)];
      }
    }

    method BuildMsg(t: Target, c: Conf, prefix: string, m: Item)
      requires buffer.alignment > 0 && m.Msg?
      modifies this
      ensures View() == ServeAll(buffer, old(View()), MsgRequests(t, c, prefix, m, |m.fields|))
      decreases m, 0
    {
      for i := 0 to |m.fields|
        invariant View() == ServeAll(buffer, old(View()), MsgRequests(t, c, prefix, m, i))
      {
        var name := prefix + m.fields[i].name;
        ServeConcat(buffer, old(View()), MsgRequests(t, c, prefix, m, i), FieldRequests(t, c, name, m.fields[i]));
        BuildField(t, c, name, m.fields[i]);
      }
    }

    method BuildItem(t: Target, c: Conf, name: string, item: Item, text: Use)
      requires buffer.alignment > 0
      modifies this
      ensures View() == ServeAll(buffer, old(View()), ItemRequests(t, c, name, item, text))
      decreases item, 1
    {
      match item
      case Basic(_) =>
      case Str =>
        Allocate(Ask(name, text, Capacity(c, name, text), 1));
      case Msg(_, _) =>
        BuildMsg(t, c, name + ".", item);
    }

    method BuildItems(t: Target, c: Conf, name: string, item: Item, text: Use, n: nat)
      requires buffer.alignment > 0
      modifies this
      ensures View() == ServeAll(buffer, old(View()), Repeat(ItemRequests(t, c, name, item, text), n))
      decreases item, 2
    {
      ghost var rs := ItemRequests(t, c, name, item, text);
      for i := 0 to n
        invariant View() == ServeAll(buffer, old(View()), Repeat(rs, i))
      {
        ServeConcat(buffer, old(View()), Repeat(rs, i), rs);
        BuildItem(t, c, name, item, text);
      }
    }

    method BuildField(t: Target, c: Conf, name: string, f: Field)
      requires buffer.alignment > 0
      modifies this
      ensures View() == ServeAll(buffer, old(View()), FieldRequests(t, c, name, f))
      decreases f, 3
    {
      match f.arity
      case Single => BuildItem(t, c, name, f.item, Text);
      case FixedArray(n) => BuildItems(t, c, name, f.item, Text, n);
      case Sequence =>
        var cap := Capacity(c, name, ItemsUse(f.item));
        var items := Ask(name, ItemsUse(f.item), cap, SizeOf(t, f.item));
        Allocate(items);
        ServeConcat(buffer, old(View()), [items], Repeat(ItemRequests(t, c, name, f.item, InnerText), cap));
        assert [items][..0] == [];
        BuildItems(t, c, name, f.item, InnerText, cap);
    }
  }

  // ----- what carving achieves -----

  predicate Aligned(b: Buffer, offset: nat)
    requires b.alignment > 0
  {
    (b.base + offset) % b.alignment == 0
  }

  /** The regions answer the requests one by one; they are aligned and in bounds, and each starts
      after all earlier ones have ended. */
  ghost predicate Sound(b: Buffer, regions: seq<Region>, rs: seq<Request>)
    requires b.alignment > 0
  {
    && |regions| == |rs|
    && (forall i :: 0 <= i < |rs| ==> regions[i].request == rs[i])
    && (forall i :: 0 <= i < |regions| ==> Aligned(b, regions[i].offset) && regions[i].End() <= b.len)
    && (forall i, j :: 0 <= i < j < |regions| ==> regions[i].End() <= regions[j].offset)
  }

  lemma SoundSnoc(b: Buffer, regions: seq<Region>, rs: seq<Request>, used: nat, next: Region)
    requires b.alignment > 0 && Sound(b, regions, rs)
    requires forall i :: 0 <= i < |regions| ==> regions[i].End() <= used
    requires used <= next.offset && Aligned(b, next.offset) && next.End() <= b.len
    ensures Sound(b, regions + [next], rs + [next.request])
    ensures forall i :: 0 <= i < |regions + [next]| ==> (regions + [next])[i].End() <= next.End()
  {
  }

  lemma {:induction false} CarvingIsSound(b: Buffer, rs: seq<Request>)
    requires b.alignment > 0
    ensures var s := ServeAll(b, UNTOUCHED, rs);
            s.ok ==> Sound(b, s.regions, rs) && forall i :: 0 <= i < |s.regions| ==> s.regions[i].End() <= s.used
    decreases |rs|
  {
    if rs == [] {
    } else {
      var last := |rs| - 1;
      var before, s := ServeAll(b, UNTOUCHED, rs[..last]), ServeAll(b, UNTOUCHED, rs);
      CarvingIsSound(b, rs[..last]);
      if s.ok {
        assert rs == rs[..last] + [rs[last]];
        SoundSnoc(b, before.regions, rs[..last], before.used, s.regions[|before.regions|]);
      }
    }
  }

  /** How much of an endless buffer the requests use up. */
  function Usage(base: nat, alignment: nat, rs: seq<Request>): nat
    requires alignment > 0
    decreases |rs|
  {
    if rs == [] then 0 else
      var before := Usage(base, alignment, rs[..|rs| - 1]);
      before + Padding(base + before, alignment) + rs[|rs| - 1].bytes
  }

  /** Carving succeeds exactly when the buffer is as long as the requests use, alignment included. */
  lemma {:induction false} CarvingSucceedsIff(b: Buffer, rs: seq<Request>)
    requires b.alignment > 0
    ensures var s := ServeAll(b, UNTOUCHED, rs);
            && (s.ok <==> Usage(b.base, b.alignment, rs) <= b.len)
            && (s.ok ==> s.used == Usage(b.base, b.alignment, rs))
    decreases |rs|
  {
    if rs == [] {
    } else {
      CarvingSucceedsIff(b, rs[..|rs| - 1]);
    }
  }

  lemma {:induction false} UsageIsBounded(base: nat, alignment: nat, rs: seq<Request>)
    requires alignment > 0
    ensures Total(rs, 0) <= Usage(base, alignment, rs) <= Total(rs, alignment - 1)
    decreases |rs|
  {
    if rs == [] {
    } else {
      UsageIsBounded(base, alignment, rs[..|rs| - 1]);
    }
  }

  /** The region belongs to a field of the message, and carries its fully qualified name. */
  ghost predicate IsOfField(t: Target, m: Item, r: Request) {
    exists path :: IsPath(m, path) && r.name == Dotted(path) && IsNeededBy(t, path[|path| - 1], r)
  }

  lemma OfField(t: Target, c: Conf, m: Item, r: Request)
    requires m.Msg? && r in MsgRequests(t, c, "", m, |m.fields|)
    ensures IsOfField(t, m, r)
  {
    var path := MsgRequestPath(t, c, "", m, |m.fields|, r);
    assert "" + Dotted(path) == Dotted(path);
  }

  function BytesOf(regions: seq<Region>): nat
    decreases |regions|
  {
    if regions == [] then 0 else BytesOf(regions[..|regions| - 1]) + regions[|regions| - 1].request.bytes
  }

  lemma {:induction false} BytesAreTotal(regions: seq<Region>, rs: seq<Request>)
    requires |regions| == |rs| && forall i :: 0 <= i < |rs| ==> regions[i].request == rs[i]
    ensures BytesOf(regions) == Total(rs, 0)
    decreases |rs|
  {
    if rs == [] {
    } else {
      BytesAreTotal(regions[..|rs| - 1], rs[..|rs| - 1]);
    }
  }

  lemma {:induction false} TotalWithSlack(rs: seq<Request>, slack: nat)
    ensures Total(rs, slack) == Total(rs, 0) + |rs| * slack
    decreases |rs|
  {
    if rs == [] {
    } else {
      TotalWithSlack(rs[..|rs| - 1], slack);
      OneMoreTime(|rs|, slack);
    }
  }

  /** micro_ros_utilities_create_static_message_memory.

      Main result: for every message type and configuration, a buffer of at least the static size
      is enough wherever it lies in memory, one shorter than the dynamic size never is, and on
      success every region is in bounds, aligned, disjoint from the others and sized by its rule or
      default. */
  method CreateStaticMemory(t: Target, conf: Conf, m: Item, base: nat, len: nat)
    returns (ok: bool, regions: seq<Region>)
    requires m.Msg? && t.alignment > 0
    ensures len >= StaticSize(t, conf, m) ==> ok
    ensures len < DynamicSize(t, conf, m) ==> !ok
    ensures ok ==> Sound(Buffer(base, len, t.alignment), regions, MsgRequests(t, Effective(conf), "", m, |m.fields|))
    ensures ok ==> forall i :: 0 <= i < |regions| ==>
                     FollowsRules(conf, regions[i].request) && IsOfField(t, m, regions[i].request)
    ensures ok ==> BytesOf(regions) == DynamicSize(t, conf, m)
    ensures ok ==> StaticSize(t, conf, m) == DynamicSize(t, conf, m) + |regions| * (t.alignment - 1)
  {
    var b := Buffer(base, len, t.alignment);
    var c := Effective(conf);
    ghost var rs := MsgRequests(t, c, "", m, |m.fields|);
    var arena := new Arena(b);
    arena.BuildMsg(t, c, "", m);
    ok, regions := arena.ok, arena.regions;
    CarvingSucceedsIff(b, rs);
    CarvingIsSound(b, rs);
    UsageIsBounded(base, t.alignment, rs);
    MsgSizeIsTotal(t, c, "", m, |m.fields|, 0);
    MsgSizeIsTotal(t, c, "", m, |m.fields|, t.alignment - 1);
    MsgRequestsAreSized(t, c, "", m, |m.fields|);
    if ok {
      forall i | 0 <= i < |regions|
        ensures FollowsRules(conf, regions[i].request) && IsOfField(t, m, regions[i].request)
      {
        SizedFollowsRules(conf, rs[i]);
        OfField(t, c, m, rs[i]);
      }
      BytesAreTotal(regions, rs);
      TotalWithSlack(rs, t.alignment - 1);
    }
  }
}
