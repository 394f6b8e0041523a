/** Validation and expansion of topic names: src/rcl/validate_topic_name.h, src/rcl/expand_topic_name.h.

    Validation is a scan that stops at a violation; `Violates` states each rule on its own.
    Expansion replaces `~` and `{...}` once, from left to right, and then makes the name absolute.
 */
module TopicNames {

  import opened Common
  import opened Lexer

  // ----- the rules, one by one -----

  datatype Code =
    | Empty | EndsWithSlash | Unallowed | TokenStartsWithNumber | UnmatchedBrace | MisplacedTilde
    | TildeWithoutSlash | SubstitutionUnallowed | SubstitutionStartsWithNumber

  datatype Verdict = Valid | Invalid(code: Code, index: nat)

  /** The last brace before index `i` opens. */
  predicate InBraces(name: string, i: nat)
    requires i <= |name|
  {
    i > 0 && (name[i - 1] == '{' || (name[i - 1] != '}' && InBraces(name, i - 1)))
  }

  predicate StartsToken(name: string, i: nat)
    requires i <= |name|
  {
    i == 0 || name[i - 1] == '/'
  }

  /** Index `i` of the name breaks the rule behind the code. */
  predicate Violates(name: string, code: Code, i: nat) {
    match code
    case Empty => name == "" && i == 0
    case EndsWithSlash => |name| == i + 1 && name[i] == '/'
    case Unallowed => i < |name| && !IsWord(name[i]) && name[i] !in ['/', '~', '{', '}'] && !InBraces(name, i)
    case SubstitutionUnallowed => i < |name| && !IsWord(name[i]) && name[i] !in ['~', '}'] && InBraces(name, i)
    case MisplacedTilde => 0 < i < |name| && name[i] == '~'
    case SubstitutionStartsWithNumber => 0 < i < |name| && IsDigit(name[i]) && name[i - 1] == '{'
    case UnmatchedBrace =>
      i < |name| && !InBraces(name, i) && (name[i] == '}' || (name[i] == '{' && '}' !in name[i..]))
    case TokenStartsWithNumber => i < |name| && IsDigit(name[i]) && StartsToken(name, i)
    case TildeWithoutSlash => i == 0 && name != "" && name[0] == '~' && (|name| == 1 || name[1] != '/')
  }

  ghost predicate BreaksNoRule(name: string) {
    forall code, i: nat :: !Violates(name, code, i)
  }

  // ----- the scan -----

  /** The rule broken by the character at `i`, if any; the brace open there is at `open`. */
  function CharCode(name: string, i: nat, open: Option<nat>): Option<Code>
    requires i < |name|
  {
    var c := name[i];
    if IsWord(c) then
      if IsDigit(c) && open.Some? && open.value + 1 == i then Some(SubstitutionStartsWithNumber) else None
    else if c == '~' then
      if i != 0 then Some(MisplacedTilde) else None
    else if c == '}' then
      if open.None? then Some(UnmatchedBrace) else None
    else if open.Some? then Some(SubstitutionUnallowed)
    else if c == '/' || c == '{' then None
    else Some(Unallowed)
  }

  function OpenAfter(name: string, i: nat, open: Option<nat>): Option<nat>
    requires i < |name|
  {
    if name[i] == '{' then Some(i) else if name[i] == '}' then None else open
  }

  function ScanChars(name: string, i: nat, open: Option<nat>): Verdict
    requires i <= |name|
    decreases |name| - i
  {
    if i == |name| then
      if open.Some? then Invalid(UnmatchedBrace, open.value) else Valid
    else match CharCode(name, i, open)
      case Some(code) => Invalid(code, i)
      case None => ScanChars(name, i + 1, OpenAfter(name, i, open))
  }

  function TokenCode(name: string, i: nat): Option<Code>
    requires i < |name|
  {
    if IsDigit(name[i]) && StartsToken(name, i) then Some(TokenStartsWithNumber)
    else if i == 0 && name[0] == '~' && (|name| == 1 || name[1] != '/') then Some(TildeWithoutSlash)
    else None
  }

  function ScanTokens(name: string, i: nat): Verdict
    requires i <= |name|
    decreases |name| - i
  {
    if i == |name| then Valid
    else match TokenCode(name, i)
      case Some(code) => Invalid(code, i)
      case None => ScanTokens(name, i + 1)
  }

  /** rcl_validate_topic_name */
  function Validate(name: string): Verdict {
    if name == "" then Invalid(Empty, 0)
    else if name[|name| - 1] == '/' then Invalid(EndsWithSlash, |name| - 1)
    else match ScanChars(name, 0, None)
      case Invalid(code, i) => Invalid(code, i)
      case Valid => ScanTokens(name, 0)
  }

  // ----- the scan finds a violation if there is one -----

  /** `open` is the brace that is open at index `i`. */
  ghost predicate OpenAt(name: string, i: nat, open: Option<nat>)
    requires i <= |name|
  {
    && (open.Some? <==> InBraces(name, i))
    && (open.Some? ==>
          && open.value < i
          && name[open.value] == '{'
          && !InBraces(name, open.value)
          && forall j :: open.value < j < i ==> name[j] != '{' && name[j] != '}')
  }

  /** One character: the scan reports it exactly if it breaks one of the rules about characters. */
  lemma CharCodeIff(name: string, i: nat, open: Option<nat>)
    requires i < |name| && OpenAt(name, i, open)
    ensures var r := CharCode(name, i, open);
            && (r.Some? ==> Violates(name, r.value, i))
            && (r.None? ==>
                  && !Violates(name, Unallowed, i)
                  && !Violates(name, MisplacedTilde, i)
                  && !Violates(name, SubstitutionUnallowed, i)
                  && !Violates(name, SubstitutionStartsWithNumber, i)
                  && (name[i] == '}' ==> InBraces(name, i)))
  {
  }

  lemma OpenStep(name: string, i: nat, open: Option<nat>)
    requires i < |name| && OpenAt(name, i, open) && CharCode(name, i, open).None?
    ensures OpenAt(name, i + 1, OpenAfter(name, i, open))
  {
    assert InBraces(name, i + 1) <==> name[i] == '{' || (name[i] != '}' && InBraces(name, i));
  }

  lemma {:induction false} ScanCharsIff(name: string, i: nat, open: Option<nat>)
    requires i <= |name| && OpenAt(name, i, open)
    ensures var r := ScanChars(name, i, open);
            && (r.Invalid? ==> Violates(name, r.code, r.index))
            && (r.Valid? ==> !InBraces(name, |name|))
            && (r.Valid? ==> forall j :: i <= j < |name| ==> name[j] == '}' ==> InBraces(name, j))
            && (forall j: nat :: i <= j && (r.Valid? || j < r.index) ==>
                  !Violates(name, Unallowed, j) && !Violates(name, MisplacedTilde, j)
                  && !Violates(name, SubstitutionUnallowed, j) && !Violates(name, SubstitutionStartsWithNumber, j))
    decreases |name| - i
  {
    if i == |name| {
    } else {
      CharCodeIff(name, i, open);
      if CharCode(name, i, open).None? {
        OpenStep(name, i, open);
        ScanCharsIff(name, i + 1, OpenAfter(name, i, open));
      }
    }
  }

  /** A brace open at `i` with no closing one after it stays open. */
  lemma {:induction false} StaysOpen(name: string, i: nat, j: nat)
    requires i < j <= |name| && name[i] == '{' && '}' !in name[i..]
    ensures InBraces(name, j)
    decreases j
  {
    if i + 1 < j {
      StaysOpen(name, i, j - 1);
      assert name[j - 1] == name[i..][j - 1 - i];
    }
  }

  lemma {:induction false} ScanTokensIff(name: string, i: nat)
    requires i <= |name|
    ensures var r := ScanTokens(name, i);
            && (r.Invalid? ==> Violates(name, r.code, r.index))
            && (forall j: nat :: i <= j && (r.Valid? || j < r.index) ==>
                  !Violates(name, TokenStartsWithNumber, j) && !Violates(name, TildeWithoutSlash, j))
    decreases |name| - i
  {
    if i < |name| && TokenCode(name, i).None? {
      ScanTokensIff(name, i + 1);
    }
  }

  /** Main result: a reported violation is one, at the index reported; and a name is valid exactly
      if no index breaks any rule. */
  lemma ValidIff(name: string)
    ensures Validate(name).Invalid? ==> Violates(name, Validate(name).code, Validate(name).index)
    ensures Validate(name).Valid? <==> BreaksNoRule(name)
  {
    if name == "" {
      assert Violates(name, Empty, 0);
    } else {
      ScanCharsIff(name, 0, None);
      ScanTokensIff(name, 0);
      var v := Validate(name);
      if v.Invalid? {
        assert Violates(name, v.code, v.index);
      } else {
        forall code, i: nat ensures !Violates(name, code, i) {
          if code == UnmatchedBrace && i < |name| && name[i] == '{' && '}' !in name[i..] {
            StaysOpen(name, i, |name|);
          }
        }
      }
    }
  }

  // ----- names as parts -----

  datatype Part = Char(c: char) | Subst(key: string)

  /** Index of the first closing brace, or the length. */
  function CloseAt(s: string): (k: nat)
    ensures k <= |s|
    ensures k < |s| ==> s[k] == '}'
    ensures forall j :: 0 <= j < k ==> s[j] != '}'
  {
    if s == "" || s[0] == '}' then 0 else 1 + CloseAt(s[1..])
  }

  function Split(s: string): seq<Part> {
    if s == "" then []
    else if s[0] == '{' && CloseAt(s) < |s| then [Subst(s[1..CloseAt(s)])] + Split(s[CloseAt(s) + 1..])
    else [Char(s[0])] + Split(s[1..])
  }

  /** The text of the first part of a non-empty name. */
  function Head(s: string): (n: nat)
    requires s != ""
    ensures 0 < n <= |s|
  {
    if s[0] == '{' && CloseAt(s) < |s| then CloseAt(s) + 1 else 1
  }

  function Text(p: Part): string {
    match p case Char(c) => [c] case Subst(key) => "{" + key + "}"
  }

  function Render(p: seq<Part>): string {
    if p == [] then "" else Text(p[0]) + Render(p[1..])
  }

  lemma BracedText(s: string, k: nat)
    requires 0 < k < |s| && s[0] == '{' && s[k] == '}'
    ensures "{" + s[1..k] + "}" == s[..k + 1]
  {
  }

  lemma SplitStep(s: string)
    requires s != ""
    ensures Split(s) != [] && Split(s)[1..] == Split(s[Head(s)..]) && Text(Split(s)[0]) == s[..Head(s)]
    ensures Split(s)[0] == if Head(s) > 1 then Subst(s[1..Head(s) - 1]) else Char(s[0])
  {
    var k := CloseAt(s);
    if s[0] == '{' && k < |s| {
      TailOfCons(Subst(s[1..k]), Split(s[k + 1..]));
      BracedText(s, k);
    } else {
      TailOfCons(Char(s[0]), Split(s[1..]));
    }
  }

  lemma RenderStep(p: seq<Part>)
    requires p != []
    ensures Render(p) == Text(p[0]) + Render(p[1..])
  {
  }

  lemma {:induction false} SplitLosesNothing(s: string)
    ensures Render(Split(s)) == s
    decreases |s|
  {
    if s == "" {
    } else {
      SplitStep(s);
      SplitLosesNothing(s[Head(s)..]);
      Halves(s, Head(s));
      RenderStep(Split(s));
    }
  }

  // ----- node names and namespaces -----

  const MAX_NODE_NAME := 255
  const MAX_NAMESPACE := 255 - 8 - 2

  /** rmw_validate_node_name finds nothing wrong. */
  predicate ValidNodeName(name: string) {
    && name != ""
    && (forall i :: 0 <= i < |name| ==> IsWord(name[i]))
    && !IsDigit(name[0])
    && |name| <= MAX_NODE_NAME
  }

  /** rmw_validate_namespace finds nothing wrong. */
  predicate ValidNamespace(ns: string) {
    && ns != ""
    && ns[0] == '/'
    && (ns[|ns| - 1] == '/' ==> ns == "/")
    && (forall i :: 0 <= i < |ns| ==> IsWord(ns[i]) || ns[i] == '/')
    && (forall i :: 0 < i < |ns| && ns[i - 1] == '/' ==> ns[i] != '/' && !IsDigit(ns[i]))
    && |ns| <= MAX_NAMESPACE
  }

  // ----- expansion -----

  datatype Expansion =
    | Ok(name: string) | TopicNameInvalid | NodeInvalidName | NodeInvalidNamespace | UnknownSubstitution

  /** What the keys stand for. */
  type Env = string -> Option<string>

  /** The values for {node}, {namespace} and {ns}, then those of the given map. */
  function Lookup(node: string, ns: string, subs: map<string, string>, key: string): Option<string> {
    if key == "node" then Some(node)
    else if key == "ns" || key == "namespace" then Some(ns)
    else if key in subs then Some(subs[key])
    else None
  }

  function EnvOf(node: string, ns: string, subs: map<string, string>): Env {
    key => Lookup(node, ns, subs, key)
  }

  function Substitute(p: seq<Part>, env: Env): Option<string> {
    if p == [] then Some("") else
      var rest := Substitute(p[1..], env);
      match p[0]
      case Char(c) => if rest.None? then None else Some([c] + rest.value)
      case Subst(key) => if env(key).None? || rest.None? then None else Some(env(key).value + rest.value)
  }

  /** A name below a namespace. */
  function Join(ns: string, name: string): string {
    if ns == "/" then "/" + name else ns + "/" + name
  }

  function ExpandValid(topic: string, node: string, ns: string, env: Env): Expansion
    requires topic != ""
  {
    var tilde := topic[0] == '~';
    match Substitute(Split(if tilde then topic[1..] else topic), env)
    case None => UnknownSubstitution
    case Some(body) => Ok(
      if tilde then Join(ns, node) + body
      else if body != "" && body[0] == '/' then body
      else Join(ns, body))
  }

  /** rcl_expand_topic_name */
  function Expand(topic: string, node: string, ns: string, subs: map<string, string>): Expansion {
    if Validate(topic) != Valid then TopicNameInvalid
    else if !ValidNodeName(node) then NodeInvalidName
    else if !ValidNamespace(ns) then NodeInvalidNamespace
    else ExpandValid(topic, node, ns, EnvOf(node, ns, subs))
  }

  // ----- names without `~` and `{}` as runs of a two-state machine -----

  /** Reads a character; the state says whether a token starts here.  No state is left if the
      character is not allowed or a token starts with a digit. */
  function Step(start: bool, c: char): Option<bool> {
    if c == '/' then Some(true)
    else if !IsWord(c) || (start && IsDigit(c)) then None
    else Some(false)
  }

  function Run(start: bool, s: string): Option<bool>
    decreases |s|
  {
    if s == "" then Some(start)
    else match Step(start, s[0])
      case None => None
      case Some(next) => Run(next, s[1..])
  }

  lemma {:induction false} RunConcat(start: bool, a: string, b: string)
    ensures Run(start, a + b) == if Run(start, a).None? then None else Run(Run(start, a).value, b)
    decreases |a|
  {
    if a == "" {
      assert a + b == b;
    } else {
      assert (a + b)[1..] == a[1..] + b;
      RunConcat(a[0] == '/', a[1..], b);
    }
  }

  /** A name that runs from the start of a token also runs from its middle. */
  lemma RunFromMiddle(start: bool, s: string)
    requires s != "" && Run(true, s).Some?
    ensures Run(start, s) == Run(true, s)
  {
  }

  /** The character at `i` is allowed, and is no digit if a token starts there. */
  predicate AllowedAt(start: bool, s: string, i: nat)
    requires i < |s|
  {
    && (IsWord(s[i]) || s[i] == '/')
    && (IsDigit(s[i]) ==> if i == 0 then !start else s[i - 1] != '/')
  }

  ghost predicate Runs(start: bool, s: string) {
    forall i: nat :: i < |s| ==> AllowedAt(start, s, i)
  }

  lemma RunsStep(start: bool, s: string)
    requires s != ""
    ensures Runs(start, s) <==> AllowedAt(start, s, 0) && Runs(s[0] == '/', s[1..])
  {
    var next, t := s[0] == '/', s[1..];
    if Runs(start, s) {
      forall i: nat | i < |t| ensures AllowedAt(next, t, i) {
        assert AllowedAt(start, s, i + 1);
      }
    }
    if Runs(next, t) {
      forall i: nat | 1 <= i < |s| ensures AllowedAt(start, s, i) {
        assert AllowedAt(next, t, i - 1);
      }
    }
  }

  lemma {:induction false} RunIff(start: bool, s: string)
    ensures Run(start, s).Some? <==> Runs(start, s)
    ensures Run(start, s).Some? ==> Run(start, s).value == if s == "" then start else s[|s| - 1] == '/'
    decreases |s|
  {
    if s == "" {
    } else {
      RunsStep(start, s);
      RunIff(s[0] == '/', s[1..]);
    }
  }

  predicate IsPlain(s: string) {
    '~' !in s && '{' !in s && '}' !in s
  }

  lemma {:induction false} NoBraces(name: string, i: nat)
    requires i <= |name| && '{' !in name
    ensures !InBraces(name, i)
    decreases i
  {
    if i == 0 {
    } else {
      NoBraces(name, i - 1);
    }
  }

  /** Without `~`, `{` and `}` validity is what the machine says. */
  lemma PlainIsValidIff(name: string)
    requires name != "" && IsPlain(name)
    ensures Validate(name).Valid? <==> Run(true, name) == Some(false)
  {
    ValidIff(name);
    RunIff(true, name);
    forall i: nat | i <= |name| ensures !InBraces(name, i) {
      NoBraces(name, i);
    }
    if Runs(true, name) && name[|name| - 1] != '/' {
      forall code, i: nat ensures !Violates(name, code, i) {
        assert i < |name| ==> AllowedAt(true, name, i);
      }
    }
    if Validate(name).Valid? {
      forall i: nat | i < |name| ensures AllowedAt(true, name, i) {
        assert !Violates(name, Unallowed, i) && !Violates(name, TokenStartsWithNumber, i);
      }
      assert !Violates(name, EndsWithSlash, |name| - 1);
    }
  }

  /** A namespace other than the root is a valid absolute topic name without repeated slashes. */
  lemma NamespaceIsTopicIff(ns: string)
    requires ns != "/"
    ensures ValidNamespace(ns) <==>
            && Validate(ns).Valid? && IsPlain(ns) && ns[0] == '/' && |ns| <= 245
            && forall i :: 0 < i < |ns| ==> !(ns[i - 1] == '/' && ns[i] == '/')
  {
    if ns != "" && IsPlain(ns) {
      PlainIsValidIff(ns);
      RunIff(true, ns);
      if ValidNamespace(ns) {
        forall i: nat | i < |ns| ensures AllowedAt(true, ns, i) {
        }
      }
      if Runs(true, ns) {
        forall i: nat | i < |ns| ensures IsWord(ns[i]) || ns[i] == '/' {
          assert AllowedAt(true, ns, i);
        }
        forall i: nat | 0 < i < |ns| && ns[i - 1] == '/' ensures !IsDigit(ns[i]) {
          assert AllowedAt(true, ns, i);
        }
      }
    } else {
      assert ns == "" ==> Validate(ns) == Invalid(Empty, 0);
    }
  }

  /** A node name is a valid topic name of a single token. */
  lemma NodeIsTopicIff(node: string)
    ensures ValidNodeName(node) <==> Validate(node).Valid? && IsPlain(node) && '/' !in node && |node| <= 255
  {
    if node != "" && IsPlain(node) {
      PlainIsValidIff(node);
      RunIff(true, node);
      if ValidNodeName(node) {
        forall i: nat | i < |node| ensures AllowedAt(true, node, i) {
        }
      }
      if Runs(true, node) {
        forall i: nat | i < |node| ensures IsWord(node[i]) || node[i] == '/' {
          assert AllowedAt(true, node, i);
        }
        assert AllowedAt(true, node, 0);
      }
    } else {
      assert node == "" ==> Validate(node) == Invalid(Empty, 0);
    }
  }

  // ----- the same machine over parts -----

  /** As Run; a substitution stands for a piece of a token. */
  function RunParts(start: bool, p: seq<Part>): Option<bool>
    decreases |p|
  {
    if p == [] then Some(start)
    else match p[0]
      case Char(c) => (match Step(start, c) case None => None case Some(next) => RunParts(next, p[1..]))
      case Subst(key) => RunParts(false, p[1..])
  }

  lemma {:induction false} SuffixRuns(name: string, i: nat)
    requires BreaksNoRule(name) && i <= |name| && !InBraces(name, i)
    requires i == 0 ==> name != "" && name[0] != '~'
    ensures RunParts(StartsToken(name, i), Split(name[i..])) == Some(false)
    decreases |name| - i
  {
    if i == |name| {
      assert !Violates(name, Empty, 0) && !Violates(name, EndsWithSlash, |name| - 1);
    } else {
      var s := name[i..];
      SplitStep(s);
      var j := i + Head(s);
      assert s[Head(s)..] == name[j..];
      if Head(s) == 1 {
        NoOpenBrace(name, i);
        assert !Violates(name, Unallowed, i) && !Violates(name, UnmatchedBrace, i)
            && !Violates(name, TokenStartsWithNumber, i) && !Violates(name, MisplacedTilde, i);
      } else {
        assert name[j - 1] == '}';
      }
      SuffixRuns(name, j);
    }
  }

  lemma NoOpenBrace(name: string, i: nat)
    requires BreaksNoRule(name) && i < |name| && !InBraces(name, i) && Head(name[i..]) == 1
    ensures name[i] != '{'
  {
    assert !Violates(name, UnmatchedBrace, i);
    assert name[i..][0] == name[i];
  }

  // ----- validity from the parts -----

  /** What may stand between braces. */
  predicate GoodKey(key: string) {
    (forall i :: 0 <= i < |key| ==> IsWord(key[i])) && (key != "" ==> !IsDigit(key[0]))
  }

  predicate GoodKeys(p: seq<Part>) {
    forall i :: 0 <= i < |p| && p[i].Subst? ==> GoodKey(p[i].key)
  }

  lemma GoodKeysCons(p: seq<Part>)
    requires p != []
    ensures GoodKeys(p) <==> (p[0].Subst? ==> GoodKey(p[0].key)) && GoodKeys(p[1..])
  {
    if (p[0].Subst? ==> GoodKey(p[0].key)) && GoodKeys(p[1..]) {
      forall i | 0 <= i < |p| && p[i].Subst? ensures GoodKey(p[i].key) {
        assert i > 0 ==> p[i] == p[1..][i - 1];
      }
    }
  }

  lemma {:induction false} InBracesUpTo(name: string, i: nat, j: nat)
    requires i < j <= |name| && name[i] == '{' && forall k :: i < k < j ==> name[k] != '}'
    ensures InBraces(name, j)
    decreases j
  {
    if j == i + 1 {
    } else {
      InBracesUpTo(name, i, j - 1);
    }
  }

  /** The key that begins at index `i` of a valid name. */
  lemma KeyIsGood(name: string, i: nat, k: nat)
    requires BreaksNoRule(name) && i < k < |name| && name[i] == '{' && forall j :: i < j < k ==> name[j] != '}'
    ensures GoodKey(name[i + 1..k])
  {
    var key := name[i + 1..k];
    forall j | 0 <= j < |key| ensures IsWord(key[j]) {
      var at := i + 1 + j;
      InBracesUpTo(name, i, at);
      assert !Violates(name, SubstitutionUnallowed, at) && !Violates(name, MisplacedTilde, at);
    }
    if key != "" {
      assert !Violates(name, SubstitutionStartsWithNumber, i + 1);
    }
  }

  lemma {:induction false} SuffixKeysAreGood(name: string, i: nat)
    requires BreaksNoRule(name) && i <= |name|
    ensures GoodKeys(Split(name[i..]))
    decreases |name| - i
  {
    if i == |name| {
    } else {
      var s := name[i..];
      var j := i + Head(s);
      SplitStep(s);
      assert s[Head(s)..] == name[j..];
      SuffixKeysAreGood(name, j);
      if Head(s) > 1 {
        assert s[1..Head(s) - 1] == name[i + 1..j - 1];
        forall k | i < k < j - 1 ensures name[k] != '}' {
          assert name[k] == s[k - i];
        }
        KeyIsGood(name, i, j - 1);
      }
      GoodKeysCons(Split(s));
    }
  }

  /** The scans pass over a good key, from the brace open at `i` to the closing one at `k`. */
  lemma {:induction false} ScansPassKey(name: string, i: nat, j: nat, k: nat)
    requires i < j <= k < |name| && name[i] == '{' && name[k] == '}'
    requires forall l :: i < l < k ==> IsWord(name[l])
    requires i + 1 < k ==> !IsDigit(name[i + 1])
    ensures ScanChars(name, j, Some(i)) == ScanChars(name, k + 1, None)
    ensures ScanTokens(name, j) == ScanTokens(name, k + 1)
    decreases k - j
  {
    if j == k {
    } else {
      ScansPassKey(name, i, j + 1, k);
    }
  }

  lemma ScanAtChar(name: string, i: nat)
    requires i < |name| && Step(StartsToken(name, i), name[i]).Some?
    ensures ScanChars(name, i, None) == ScanChars(name, i + 1, None)
    ensures ScanTokens(name, i) == ScanTokens(name, i + 1)
  {
  }

  lemma ScanAtKey(name: string, i: nat, j: nat, key: string)
    requires i + 1 < j <= |name| && name[i] == '{' && name[j - 1] == '}'
    requires key == name[i + 1..j - 1] && GoodKey(key)
    ensures ScanChars(name, i, None) == ScanChars(name, j, None)
    ensures ScanTokens(name, i) == ScanTokens(name, j)
  {
    forall l | i < l < j - 1 ensures IsWord(name[l]) {
      assert name[l] == key[l - i - 1];
    }
    assert i + 1 < j - 1 ==> name[i + 1] == key[0];
    ScansPassKey(name, i, i + 1, j - 1);
  }

  /** What the first part of a suffix says about the name. */
  lemma FirstPart(name: string, i: nat, s: string, j: nat)
    requires i < |name| && s == name[i..] && j == i + Head(s)
    requires RunParts(StartsToken(name, i), Split(s)) == Some(false) && GoodKeys(Split(s))
    ensures RunParts(StartsToken(name, j), Split(name[j..])) == Some(false) && GoodKeys(Split(name[j..]))
    ensures Head(s) == 1 ==> Step(StartsToken(name, i), name[i]).Some?
    ensures Head(s) > 1 ==> name[i] == '{' && name[j - 1] == '}' && GoodKey(name[i + 1..j - 1])
  {
    SplitStep(s);
    GoodKeysCons(Split(s));
    assert s[Head(s)..] == name[j..];
    assert Head(s) > 1 ==> s[1..Head(s) - 1] == name[i + 1..j - 1];
  }

  lemma {:induction false} SuffixScans(name: string, i: nat)
    requires i <= |name| && GoodKeys(Split(name[i..]))
    requires RunParts(StartsToken(name, i), Split(name[i..])) == Some(false)
    ensures ScanChars(name, i, None) == Valid && ScanTokens(name, i) == Valid
    ensures i < |name| ==> name[|name| - 1] != '/'
    decreases |name| - i
  {
    if i == |name| {
    } else {
      var j := i + Head(name[i..]);
      FirstPart(name, i, name[i..], j);
      SuffixScans(name, j);
      LastIsNoSlash(name, j);
      if j == i + 1 {
        ScanAtChar(name, i);
      } else {
        ScanAtKey(name, i, j, name[i + 1..j - 1]);
      }
    }
  }

  lemma LastIsNoSlash(name: string, j: nat)
    requires 0 < j <= |name| && RunParts(StartsToken(name, j), Split(name[j..])) == Some(false)
    ensures j == |name| ==> name[j - 1] != '/'
  {
  }

  /** Main result: a name is valid exactly if, `~/` in front aside, its characters outside braces make
      up tokens that do not start with a digit, no slash ends it, every brace is matched, and every
      key is a word that does not start with a digit. */
  lemma ValidByPartsIff(name: string)
    ensures Validate(name).Valid? <==>
            && name != ""
            && (name[0] == '~' ==> |name| > 1 && name[1] == '/')
            && RunParts(name[0] != '~', Parts(name)) == Some(false)
            && GoodKeys(Parts(name))
  {
    if Validate(name).Valid? {
      PartsRun(name);
      ValidIff(name);
      SuffixKeysAreGood(name, if name[0] == '~' then 1 else 0);
      assert name[0..] == name;
    } else if name != "" && (name[0] == '~' ==> |name| > 1 && name[1] == '/')
              && RunParts(name[0] != '~', Parts(name)) == Some(false) && GoodKeys(Parts(name)) {
      assert name[0..] == name;
      SuffixScans(name, if name[0] == '~' then 1 else 0);
      assert false;
    }
  }

  // ----- what expansion yields -----

  lemma PlainConcat(a: string, b: string)
    ensures IsPlain(a + b) <==> IsPlain(a) && IsPlain(b)
  {
  }

  lemma {:induction false} RunIsPlain(start: bool, s: string)
    requires Run(start, s).Some?
    ensures IsPlain(s)
    decreases |s|
  {
    if s == "" {
    } else {
      RunIsPlain(Step(start, s[0]).value, s[1..]);
      PlainConcat([s[0]], s[1..]);
      assert [s[0]] + s[1..] == s;
    }
  }

  /** Every value put into the name is free of `~` and braces. */
  predicate ValuesArePlain(p: seq<Part>, env: Env) {
    forall i :: 0 <= i < |p| && p[i].Subst? && env(p[i].key).Some? ==> IsPlain(env(p[i].key).value)
  }

  lemma {:induction false} SubstituteIsPlainIff(p: seq<Part>, env: Env, start: bool)
    requires RunParts(start, p).Some? && Substitute(p, env).Some?
    ensures IsPlain(Substitute(p, env).value) <==> ValuesArePlain(p, env)
    decreases |p|
  {
    if p == [] {
    } else {
      var first := p[0];
      var next := if first.Char? then Step(start, first.c).value else false;
      SubstituteIsPlainIff(p[1..], env, next);
      PlainConcat(if first.Char? then [first.c] else env(first.key).value, Substitute(p[1..], env).value);
      assert ValuesArePlain(p, env) <==>
             ValuesArePlain([first], env) && ValuesArePlain(p[1..], env) by { ValuesSplit(p, env); }
    }
  }

  lemma ValuesSplit(p: seq<Part>, env: Env)
    requires p != []
    ensures ValuesArePlain(p, env) <==> ValuesArePlain([p[0]], env) && ValuesArePlain(p[1..], env)
  {
    if ValuesArePlain([p[0]], env) && ValuesArePlain(p[1..], env) {
      forall i | 0 <= i < |p| && p[i].Subst? && env(p[i].key).Some? ensures IsPlain(env(p[i].key).value) {
        if i == 0 {
          assert [p[0]][0] == p[0];
        } else {
          assert p[1..][i - 1] == p[i];
        }
      }
    }
  }

  /** The parts of the topic that are substituted: all but a leading `~`. */
  function Parts(topic: string): seq<Part>
    requires topic != ""
  {
    Split(if topic[0] == '~' then topic[1..] else topic)
  }

  lemma PartsRun(topic: string)
    requires Validate(topic).Valid?
    ensures topic != "" && RunParts(topic[0] != '~', Parts(topic)) == Some(false)
    ensures topic[0] == '~' ==> |topic| > 1 && topic[1] == '/'
  {
    ValidIff(topic);
    assert !Violates(topic, Empty, 0) && !Violates(topic, TildeWithoutSlash, 0);
    if topic[0] == '~' {
      SuffixRuns(topic, 1);
    } else {
      SuffixRuns(topic, 0);
      assert topic[0..] == topic;
    }
  }

  lemma NamespaceRuns(ns: string)
    requires ValidNamespace(ns)
    ensures ns != "/" ==> Run(true, ns) == Some(false)
    ensures Run(true, if ns == "/" then ns else ns + "/") == Some(true)
  {
    forall i: nat | i < |ns| ensures AllowedAt(true, ns, i) {
    }
    RunIff(true, ns);
    RunConcat(true, ns, "/");
  }

  lemma NodeRuns(node: string, start: bool)
    requires ValidNodeName(node)
    ensures Run(start, node) == Some(false)
  {
    forall i: nat | i < |node| ensures AllowedAt(start, node, i) {
    }
    RunIff(start, node);
  }

  /** The text that absolute names from this topic start with, besides the substituted parts. */
  function Prefix(topic: string, node: string, ns: string, body: string): string
    requires topic != ""
  {
    if topic[0] == '~' then Join(ns, node)
    else if body != "" && body[0] == '/' then ""
    else Join(ns, "")
  }

  lemma ExpandedIs(topic: string, node: string, ns: string, env: Env)
    requires topic != ""
    ensures var r := Substitute(Parts(topic), env);
            ExpandValid(topic, node, ns, env) ==
            if r.None? then UnknownSubstitution else Ok(Prefix(topic, node, ns, r.value) + r.value)
  {
    var r := Substitute(Parts(topic), env);
    if r.Some? && topic[0] != '~' {
      assert Join(ns, "") + r.value == Join(ns, r.value);
    }
  }

  lemma PrefixRuns(topic: string, node: string, ns: string, body: string)
    requires Validate(topic).Valid? && ValidNodeName(node) && ValidNamespace(ns) && topic != ""
    ensures Run(true, Prefix(topic, node, ns, body)) == Some(topic[0] != '~')
  {
    NamespaceRuns(ns);
    var below := if ns == "/" then ns else ns + "/";
    assert Join(ns, "") == below;
    if topic[0] == '~' {
      assert Join(ns, node) == below + node;
      RunConcat(true, below, node);
      NodeRuns(node, true);
    }
  }

  /** Main result: an expanded name is absolute, and it is free of `~` and braces exactly if every
      value put into it is. */
  lemma ExpandedIsAbsolute(topic: string, node: string, ns: string, subs: map<string, string>)
    requires Expand(topic, node, ns, subs).Ok?
    ensures var out := Expand(topic, node, ns, subs).name;
            && out != "" && out[0] == '/'
            && (IsPlain(out) <==> ValuesArePlain(Parts(topic), EnvOf(node, ns, subs)))
  {
    var env := EnvOf(node, ns, subs);
    var body := Substitute(Parts(topic), env).value;
    var prefix := Prefix(topic, node, ns, body);
    PartsRun(topic);
    ExpandedIs(topic, node, ns, env);
    PrefixRuns(topic, node, ns, body);
    RunIsPlain(true, prefix);
    PlainConcat(prefix, body);
    SubstituteIsPlainIff(Parts(topic), env, topic[0] != '~');
  }

  // ----- expanding twice -----

  /** A value that may stand in a name wherever a token may: no rule is broken in it or at its end. */
  predicate WellFormedValue(v: string) {
    v != "" && Run(true, v) == Some(false)
  }

  predicate WellFormed(subs: map<string, string>) {
    forall k :: k in subs ==> WellFormedValue(subs[k])
  }

  /** The values are well formed, but for the root namespace. */
  predicate ValuesFit(env: Env, key: string) {
    env(key).Some? ==> env(key).value == "/" || WellFormedValue(env(key).value)
  }

  predicate IsRoot(p: Part, env: Env) {
    p.Subst? && env(p.key) == Some("/")
  }

  /** After the root namespace a token starts; it must not be empty or start with a digit. */
  predicate RootAt(p: seq<Part>, env: Env, i: nat)
    requires i < |p|
  {
    IsRoot(p[i], env) && (i + 1 == |p| || (p[i + 1].Char? && IsDigit(p[i + 1].c)))
  }

  predicate RootEndsBadly(p: seq<Part>, env: Env) {
    exists i: nat :: i < |p| && RootAt(p, env, i)
  }

  lemma RootTail(p: seq<Part>, env: Env)
    requires p != []
    ensures RootEndsBadly(p, env) <==> RootAt(p, env, 0) || RootEndsBadly(p[1..], env)
  {
    forall i: nat | 1 <= i < |p| ensures RootAt(p, env, i) <==> RootAt(p[1..], env, i - 1) {
    }
    if RootEndsBadly(p[1..], env) {
      var i: nat :| i < |p| - 1 && RootAt(p[1..], env, i);
      assert RootAt(p, env, i + 1);
    }
  }

  /** `root` says that the root namespace has just been put into the name. */
  lemma {:induction false} SubstituteRuns(p: seq<Part>, env: Env, start: bool, root: bool)
    requires RunParts(start, p) == Some(false) && Substitute(p, env).Some?
    requires forall key :: ValuesFit(env, key)
    requires root ==> !start
    ensures Run(start || root, Substitute(p, env).value) == Some(false) <==>
            !RootEndsBadly(p, env) && !(root && (p == [] || (p[0].Char? && IsDigit(p[0].c))))
    decreases |p|
  {
    if p == [] {
    } else {
      var first := p[0];
      var rest := Substitute(p[1..], env).value;
      RootTail(p, env);
      match first
      case Char(c) =>
        CharRuns(start || root, c, rest);
        SubstituteRuns(p[1..], env, Step(start, c).value, false);
      case Subst(key) =>
        assert ValuesFit(env, key);
        ValueRuns(start || root, env(key).value, rest);
        SubstituteRuns(p[1..], env, false, IsRoot(first, env));
    }
  }

  lemma CharRuns(start: bool, c: char, rest: string)
    ensures Run(start, [c] + rest) == match Step(start, c) case None => None case Some(next) => Run(next, rest)
  {
    TailOfCons(c, rest);
  }

  lemma ValueRuns(start: bool, v: string, rest: string)
    requires v == "/" || WellFormedValue(v)
    ensures Run(start, v + rest) == Run(v == "/", rest)
  {
    RunConcat(start, v, rest);
    if v != "/" {
      RunFromMiddle(start, v);
    }
  }

  /** A name without braces stands for itself. */
  lemma {:induction false} PlainSubstitute(s: string, env: Env)
    requires '{' !in s
    ensures Substitute(Split(s), env) == Some(s)
    decreases |s|
  {
    if s == "" {
    } else {
      PlainSubstitute(s[1..], env);
      TailOfCons(Char(s[0]), Split(s[1..]));
      assert [s[0]] + s[1..] == s;
    }
  }

  lemma NamesFit(node: string, ns: string, subs: map<string, string>, key: string)
    requires ValidNodeName(node) && ValidNamespace(ns) && WellFormed(subs)
    ensures ValuesFit(EnvOf(node, ns, subs), key)
    ensures EnvOf(node, ns, subs)(key) == Some("/") <==> (key == "ns" || key == "namespace") && ns == "/"
  {
    NamespaceRuns(ns);
    NodeRuns(node, true);
  }

  lemma FitIsPlain(v: string)
    requires v == "/" || WellFormedValue(v)
    ensures IsPlain(v)
  {
    RunIsPlain(true, v);
  }

  /** Main result: with well-formed values, expanding an expanded name again returns it unchanged,
      unless the root namespace was substituted at the end of the name or before a digit; then the
      expanded name is not a valid topic name. */
  lemma ExpandingTwice(topic: string, node: string, ns: string, subs: map<string, string>)
    requires WellFormed(subs) && Expand(topic, node, ns, subs).Ok?
    ensures var out := Expand(topic, node, ns, subs).name;
            Expand(out, node, ns, subs) ==
            if RootEndsBadly(Parts(topic), EnvOf(node, ns, subs)) then TopicNameInvalid else Ok(out)
  {
    var env, p, out := EnvOf(node, ns, subs), Parts(topic), Expand(topic, node, ns, subs).name;
    var body := Substitute(p, env).value;
    forall key ensures ValuesFit(env, key) && (env(key).Some? ==> IsPlain(env(key).value)) {
      NamesFit(node, ns, subs, key);
      if env(key).Some? {
        FitIsPlain(env(key).value);
      }
    }
    PartsRun(topic);
    ExpandedIs(topic, node, ns, env);
    PrefixRuns(topic, node, ns, body);
    RunConcat(true, Prefix(topic, node, ns, body), body);
    SubstituteRuns(p, env, topic[0] != '~', false);
    ExpandedIsAbsolute(topic, node, ns, subs);
    PlainIsValidIff(out);
    PlainSubstitute(out, env);
  }

  /** Outside the root namespace expansion is idempotent. */
  lemma ExpandingTwiceInNamespace(topic: string, node: string, ns: string, subs: map<string, string>)
    requires WellFormed(subs) && ns != "/" && Expand(topic, node, ns, subs).Ok?
    ensures var out := Expand(topic, node, ns, subs).name;
            Expand(out, node, ns, subs) == Ok(out)
  {
    ExpandingTwice(topic, node, ns, subs);
    forall i: nat | i < |Parts(topic)| ensures !RootAt(Parts(topic), EnvOf(node, ns, subs), i) {
      if Parts(topic)[i].Subst? {
        NamesFit(node, ns, subs, Parts(topic)[i].key);
      }
    }
  }

  // ----- what the forms of a name stand for -----

  /** Every key in the name stands for something. */
  predicate AllKnown(p: seq<Part>, env: Env) {
    forall i :: 0 <= i < |p| && p[i].Subst? ==> env(p[i].key).Some?
  }

  lemma {:induction false} SubstituteSucceedsIff(p: seq<Part>, env: Env)
    ensures Substitute(p, env).Some? <==> AllKnown(p, env)
    decreases |p|
  {
    if p == [] {
    } else {
      SubstituteSucceedsIff(p[1..], env);
      if AllKnown(p[1..], env) && (p[0].Subst? ==> env(p[0].key).Some?) {
        forall i | 0 <= i < |p| && p[i].Subst? ensures env(p[i].key).Some? {
          assert i > 0 ==> p[i] == p[1..][i - 1];
        }
      }
    }
  }

  /** Main result: expansion of a valid name fails exactly if some key in it is none of the built-in
      ones and not in the map, and then for that reason. */
  lemma ExpandFailsIff(topic: string, node: string, ns: string, subs: map<string, string>)
    requires Validate(topic).Valid? && ValidNodeName(node) && ValidNamespace(ns)
    ensures topic != ""
    ensures var r, p := Expand(topic, node, ns, subs), Parts(topic);
            && (r == UnknownSubstitution <==>
                exists i :: 0 <= i < |p| && p[i].Subst?
                            && p[i].key !in {"node", "ns", "namespace"} && p[i].key !in subs)
            && (r.Ok? <==> r != UnknownSubstitution)
  {
    PartsRun(topic);
    SubstituteSucceedsIff(Parts(topic), EnvOf(node, ns, subs));
  }

  function Both(a: Option<string>, b: Option<string>): Option<string> {
    if a.None? || b.None? then None else Some(a.value + b.value)
  }

  lemma {:induction false} SubstituteConcat(p: seq<Part>, q: seq<Part>, env: Env)
    ensures Substitute(p + q, env) == Both(Substitute(p, env), Substitute(q, env))
    decreases |p|
  {
    var rest := Substitute(q, env);
    if p == [] {
      assert p + q == q;
      assert rest.Some? ==> "" + rest.value == rest.value;
    } else {
      assert (p + q)[1..] == p[1..] + q;
      SubstituteConcat(p[1..], q, env);
      var tail := Substitute(p[1..], env);
      if tail.Some? && rest.Some? && (p[0].Subst? ==> env(p[0].key).Some?) {
        Associate(if p[0].Char? then [p[0].c] else env(p[0].key).value, tail.value, rest.value);
      }
    }
  }

  /** From an index outside braces on, braces can be told from what follows it. */
  lemma {:induction false} BracesFrom(name: string, i: nat, n: nat)
    requires i + n <= |name| && !InBraces(name, i)
    ensures InBraces(name[i..], n) <==> InBraces(name, i + n)
    decreases n
  {
    if n == 0 {
    } else {
      BracesFrom(name, i, n - 1);
    }
  }

  lemma HeadOfConcat(a: string, s: string)
    requires a != "" && !InBraces(a, |a|)
    ensures Head(a + s) == Head(a) && !InBraces(a, Head(a))
  {
    if a[0] == '{' {
      if '}' !in a {
        StaysOpen(a, 0, |a|);
        assert false;
      }
      assert (a + s)[CloseAt(a)] == a[CloseAt(a)];
      assert CloseAt(a + s) == CloseAt(a);
    }
  }

  /** A name whose braces are closed can be split before what follows it. */
  lemma {:induction false} SplitConcat(a: string, s: string)
    requires !InBraces(a, |a|)
    ensures Split(a + s) == Split(a) + Split(s)
    decreases |a|
  {
    if a == "" {
      assert a + s == s;
    } else {
      var n := Head(a);
      HeadOfConcat(a, s);
      BracesFrom(a, n, |a| - n);
      SplitConcat(a[n..], s);
      SplitConcatStep(a, s, a[n..]);
    }
  }

  lemma SplitConcatStep(a: string, s: string, tail: string)
    requires a != "" && tail == a[Head(a)..] && Head(a + s) == Head(a)
    requires Split(tail + s) == Split(tail) + Split(s)
    ensures Split(a + s) == Split(a) + Split(s)
  {
    SplitStep(a);
    SplitStep(a + s);
    SlicesOfConcat(a, s, Head(a));
    ConsParts(Split(a), Split(tail), Split(a + s), Split(s));
  }

  lemma SlicesOfConcat(a: string, s: string, n: nat)
    requires 0 < n <= |a|
    ensures (a + s)[n..] == a[n..] + s && (a + s)[0] == a[0] && (n > 1 ==> (a + s)[1..n - 1] == a[1..n - 1])
  {
  }

  lemma ConsParts(a: seq<Part>, tail: seq<Part>, whole: seq<Part>, s: seq<Part>)
    requires a != [] && whole != [] && a[0] == whole[0]
    requires a[1..] == tail && whole[1..] == tail + s
    ensures whole == a + s
  {
    assert a == [a[0]] + tail && whole == [whole[0]] + (tail + s);
  }

  lemma BracedIsOnePart(s: string)
    requires |s| > 1 && s[0] == '{' && s[|s| - 1] == '}'
    requires forall j :: 0 <= j < |s| - 1 ==> s[j] != '}'
    ensures Split(s) == [Subst(s[1..|s| - 1])]
  {
    assert CloseAt(s) == |s| - 1;
    SplitStep(s);
    assert s[|s|..] == "";
  }

  lemma BracedPart(key: string, s: string)
    requires '}' !in key && s == "{" + key + "}"
    ensures Split(s) == [Subst(key)] && !InBraces(s, |s|)
  {
    assert s[1..|s| - 1] == key;
    BracedIsOnePart(s);
  }

  function WithKey(a: string, key: string, b: string): string {
    a + (("{" + key + "}") + b)
  }

  /** Wherever a substitution stands in a name, what is around it is substituted on its own. */
  lemma SplitAtKey(a: string, key: string, b: string, env: Env)
    requires !InBraces(a, |a|) && '}' !in key
    ensures Substitute(Split(WithKey(a, key, b)), env) ==
            Both(Substitute(Split(a), env), Both(env(key), Substitute(Split(b), env)))
  {
    var braced := "{" + key + "}";
    BracedPart(key, braced);
    SplitConcat(a, braced + b);
    SplitConcat(braced, b);
    SubstituteConcat(Split(a), Split(braced + b), env);
    SubstituteConcat(Split(braced), Split(b), env);
    SubstituteOne(key, env);
  }

  lemma SubstituteOne(key: string, env: Env)
    ensures Substitute([Subst(key)], env) == env(key)
  {
    assert [Subst(key)][1..] == [];
    assert env(key).Some? ==> env(key).value + "" == env(key).value;
  }

  /** In a valid name no brace is open where another one opens. */
  lemma ClosedBefore(name: string, i: nat)
    requires Validate(name).Valid? && i < |name| && name[i] == '{'
    ensures !InBraces(name, i)
  {
    ValidIff(name);
    assert !Violates(name, SubstitutionUnallowed, i);
  }

  /** A leading `~` is not among the parts substituted. */
  function WithoutTilde(name: string): string {
    if name != "" && name[0] == '~' then name[1..] else name
  }

  /** Main result: the substituted text stays if it is absolute, goes below the namespace if it is
      not, and goes below the node if the name began with `~`. */
  lemma ExpandBody(topic: string, node: string, ns: string, subs: map<string, string>, body: string)
    requires Validate(topic).Valid? && ValidNodeName(node) && ValidNamespace(ns)
    requires topic != "" && Substitute(Parts(topic), EnvOf(node, ns, subs)) == Some(body)
    ensures Expand(topic, node, ns, subs) == Ok(
              if topic[0] == '~' then (if ns == "/" then "/" + node + body else ns + "/" + node + body)
              else if body != "" && body[0] == '/' then body
              else if ns == "/" then "/" + body
              else ns + "/" + body)
  {
    assert ns + "/" + node == ns + ("/" + node);
  }

  /** Main result: an absolute name stays; a relative one goes below the namespace; one after `~` goes
      below the node.  The root namespace adds no second slash. */
  lemma ExpandPlain(topic: string, node: string, ns: string, subs: map<string, string>)
    requires Validate(topic).Valid? && ValidNodeName(node) && ValidNamespace(ns)
    requires '{' !in topic
    ensures topic != ""
    ensures Expand(topic, node, ns, subs) == Ok(
              if topic[0] == '/' then topic
              else if topic[0] == '~' then (if ns == "/" then "/" + node + topic[1..] else ns + "/" + node + topic[1..])
              else if ns == "/" then "/" + topic
              else ns + "/" + topic)
  {
    var body := if topic[0] == '~' then topic[1..] else topic;
    PartsRun(topic);
    PlainSubstitute(body, EnvOf(node, ns, subs));
    ExpandBody(topic, node, ns, subs, body);
  }

  /** Main result: wherever they stand in a valid name, absolute, relative or after `~`, `{node}`
      stands for the node's name, `{ns}` and `{namespace}` for its namespace and any other key for
      its value in the map; what is before and behind is substituted on its own, and the whole is
      then made absolute. */
  lemma ExpandSubstitution(a: string, key: string, b: string, node: string, ns: string, subs: map<string, string>)
    requires Validate(WithKey(a, key, b)).Valid? && ValidNodeName(node) && ValidNamespace(ns)
    requires '}' !in key
    ensures var env, topic := EnvOf(node, ns, subs), WithKey(a, key, b);
            var value := if key == "node" then Some(node)
                         else if key == "ns" || key == "namespace" then Some(ns)
                         else if key in subs then Some(subs[key])
                         else None;
            var body := Both(Substitute(Split(WithoutTilde(a)), env), Both(value, Substitute(Split(b), env)));
            Expand(topic, node, ns, subs) ==
            if body.None? then UnknownSubstitution else Ok(
              if topic[0] == '~' then
                (if ns == "/" then "/" + node + body.value else ns + "/" + node + body.value)
              else if body.value != "" && body.value[0] == '/' then body.value
              else if ns == "/" then "/" + body.value
              else ns + "/" + body.value)
  {
    var topic, env := WithKey(a, key, b), EnvOf(node, ns, subs);
    assert topic[|a|] == '{';
    ClosedBefore(topic, |a|);
    BracesOfPrefix(a, ("{" + key + "}") + b, |a|);
    PartsAtKey(a, key, b, env);
    var body := Substitute(Parts(topic), env);
    if body.None? {
      ExpandedIs(topic, node, ns, env);
    } else {
      ExpandBody(topic, node, ns, subs, body.value);
    }
  }

  lemma TailOfKey(a: string, key: string, b: string)
    requires a != ""
    ensures WithKey(a, key, b) != "" && WithKey(a, key, b)[0] == a[0]
    ensures WithKey(a, key, b)[1..] == WithKey(a[1..], key, b)
  {
  }

  lemma PartsAtKey(a: string, key: string, b: string, env: Env)
    requires !InBraces(a, |a|) && '}' !in key
    ensures Substitute(Parts(WithKey(a, key, b)), env) ==
            Both(Substitute(Split(WithoutTilde(a)), env), Both(env(key), Substitute(Split(b), env)))
  {
    if a == "" || a[0] != '~' {
      SplitAtKey(a, key, b, env);
    } else {
      TailOfKey(a, key, b);
      BracesFrom(a, 1, |a| - 1);
      SplitAtKey(a[1..], key, b, env);
    }
  }

  lemma {:induction false} BracesOfPrefix(a: string, s: string, i: nat)
    requires i <= |a|
    ensures InBraces(a + s, i) <==> InBraces(a, i)
    decreases i
  {
    if i == 0 {
    } else {
      BracesOfPrefix(a, s, i - 1);
    }
  }

  /** In the root namespace `{ns}x` is fine, but `x{ns}` ends with a slash when expanded. */
  lemma RootNamespaceExample()
    ensures Expand("x{ns}", "n", "/", map[]) == Ok("/x/")
    ensures Validate("/x/") == Invalid(EndsWithSlash, 2)
  {
    ExampleIsValid();
    ExampleParts();
    var env := EnvOf("n", "/", map[]);
    assert env("ns") == Some("/");
    SubstituteTwo('x', "ns", env);
    assert ['x'] + "/" == "x/" && "/" + "x/" == "/x/";
  }

  lemma SubstituteTwo(c: char, key: string, env: Env)
    requires env(key).Some?
    ensures Substitute([Char(c), Subst(key)], env) == Some([c] + env(key).value)
  {
    assert [Char(c), Subst(key)][1..] == [Subst(key)] && [Subst(key)][1..] == [];
    assert Substitute([Subst(key)], env) == Some(env(key).value + "");
    assert env(key).value + "" == env(key).value;
  }

  lemma ExampleIsValid()
    ensures Validate("x{ns}") == Valid
  {
    var t := "x{ns}";
    assert ScanTokens(t, 4) == Valid && ScanTokens(t, 2) == Valid && ScanTokens(t, 0) == Valid;
    assert ScanChars(t, 4, Some(1)) == Valid && ScanChars(t, 2, Some(1)) == Valid && ScanChars(t, 0, None) == Valid;
  }

  lemma ExampleParts()
    ensures Split("x{ns}") == [Char('x'), Subst("ns")]
  {
    assert "x{ns}"[1..] == "{ns}" && CloseAt("{ns}") == 3 by {
      assert "{ns}"[1..] == "ns}" && "ns}"[1..] == "s}" && "s}"[1..] == "}";
    }
    assert "{ns}"[1..3] == "ns" && Split("{ns}") == [Subst("ns")];
  }
}
