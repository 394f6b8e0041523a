/** Lexical analysis of names: src/rcl/lexer.h.

    The header lists the lexemes with their texts and gives the token lexeme as a regular
    expression.  `Analyze` is the scanner; `InLanguage` says for each lexeme which texts it has,
    with the token language given by the regular expression itself.
 */
module Lexer {

  datatype Lexeme =
    | NoLexeme | Eof | TildeSlash | UrlService | UrlTopic | Colon | Node | Ns | Separator
    | BackReference(n: int) | Token | ForwardSlash | WildOne | WildMulti | Dot

  datatype Analysis = Analysis(lexeme: Lexeme, length: nat)

  // ----- the token language -----

  datatype Class = Letter | LetterOrDigit | Underscore

  predicate InClass(c: Class, ch: char) {
    match c
    case Letter => IsLetter(ch)
    case LetterOrDigit => IsLetter(ch) || IsDigit(ch)
    case Underscore => ch == '_'
  }

  predicate IsLetter(ch: char) { 'a' <= ch <= 'z' || 'A' <= ch <= 'Z' }

  predicate IsDigit(ch: char) { '0' <= ch <= '9' }

  predicate IsWord(ch: char) { IsLetter(ch) || IsDigit(ch) || ch == '_' }

  datatype Regex = One(c: Class) | Cat(l: Regex, r: Regex) | Alt(l: Regex, r: Regex) | Opt(r: Regex) | Star(r: Regex)

  ghost predicate Matches(re: Regex, s: string)
    decreases |s|, re
  {
    match re
    case One(c) => |s| == 1 && InClass(c, s[0])
    case Cat(l, r) => exists k :: 0 <= k <= |s| && Matches(l, s[..k]) && Matches(r, s[k..])
    case Alt(l, r) => Matches(l, s) || Matches(r, s)
    case Opt(r) => s == [] || Matches(r, s)
    case Star(r) => s == [] || exists k :: 0 < k <= |s| && Matches(r, s[..k]) && Matches(re, s[k..])
  }

  const STEM := Cat(One(Letter), Opt(One(Underscore)))
  const STEP := Cat(One(LetterOrDigit), Opt(One(Underscore)))

  const HEAD := Alt(STEM, One(Underscore))

  // (([a-zA-Z](_)?)|_)([0-9a-zA-Z](_)?)*
  const TOKEN_REGEX := Cat(HEAD, Star(STEP))

  predicate NoDoubleUnderscore(s: string) {
    forall i :: 0 <= i < |s| - 1 ==> !(s[i] == '_' && s[i + 1] == '_')
  }

  predicate IsToken(s: string) {
    && s != []
    && (forall i :: 0 <= i < |s| ==> IsWord(s[i]))
    && !IsDigit(s[0])
    && NoDoubleUnderscore(s)
  }

  /** What may follow a complete step of the expression. */
  predicate IsTail(s: string) {
    && (forall i :: 0 <= i < |s| ==> IsWord(s[i]))
    && (s != [] ==> s[0] != '_')
    && NoDoubleUnderscore(s)
  }

  lemma MatchesStep(c: Class, s: string)
    ensures Matches(Cat(One(c), Opt(One(Underscore))), s) <==>
            (|s| == 1 && InClass(c, s[0])) || (|s| == 2 && InClass(c, s[0]) && s[1] == '_')
  {
    var u := Opt(One(Underscore));
    if |s| > 0 {
      assert Matches(u, s[1..]) <==> |s| == 1 || (|s| == 2 && s[1] == '_');
      assert Matches(One(c), s[..1]) <==> InClass(c, s[0]);
    }
    assert Matches(Cat(One(c), u), s) <==> exists k :: 0 <= k <= |s| && Matches(One(c), s[..k]) && Matches(u, s[k..]);
  }

  lemma {:induction false} MatchesSteps(s: string)
    ensures Matches(Star(STEP), s) <==> IsTail(s)
    decreases |s|
  {
    if s == [] {
    } else {
      forall k | 0 < k <= |s|
        ensures Matches(STEP, s[..k]) && Matches(Star(STEP), s[k..]) ==> IsTail(s)
      {
        MatchesStep(LetterOrDigit, s[..k]);
        MatchesSteps(s[k..]);
        if Matches(STEP, s[..k]) && IsTail(s[k..]) {
          JoinTail(s, k);
        }
      }
      if IsTail(s) {
        var k := if |s| > 1 && s[1] == '_' then 2 else 1;
        MatchesStep(LetterOrDigit, s[..k]);
        SplitTail(s, k);
        MatchesSteps(s[k..]);
        assert Matches(STEP, s[..k]) && Matches(Star(STEP), s[k..]);
      }
    }
  }

  lemma JoinTail(s: string, k: nat)
    requires k <= |s| && IsTail(s[k..])
    requires k == 1 || (k == 2 && s[1] == '_')
    requires IsWord(s[0]) && s[0] != '_'
    ensures IsTail(s)
  {
    forall i | k <= i < |s| ensures IsWord(s[i]) && (i + 1 < |s| ==> !(s[i] == '_' && s[i + 1] == '_')) {
      assert s[i] == s[k..][i - k];
      assert i + 1 < |s| ==> s[i + 1] == s[k..][i + 1 - k];
    }
    assert k < |s| ==> s[k] == s[k..][0];
  }

  lemma SplitTail(s: string, k: nat)
    requires s != [] && k <= |s| && (k == |s| || s[k] != '_')
    requires forall i :: 0 <= i < |s| ==> IsWord(s[i])
    requires NoDoubleUnderscore(s)
    ensures IsTail(s[k..])
  {
    forall i | 0 <= i < |s[k..]| - 1 ensures !(s[k..][i] == '_' && s[k..][i + 1] == '_') {
      assert !(s[k + i] == '_' && s[k + i + 1] == '_');
    }
  }

  predicate IsHead(s: string) {
    (|s| == 1 && (IsLetter(s[0]) || s[0] == '_')) || (|s| == 2 && IsLetter(s[0]) && s[1] == '_')
  }

  lemma MatchesHead(s: string)
    ensures Matches(HEAD, s) <==> IsHead(s)
  {
    MatchesStep(Letter, s);
    assert Matches(One(Underscore), s) <==> |s| == 1 && s[0] == '_';
  }

  /** A token is a head followed by a tail. */
  lemma TokenSplits(s: string, k: nat)
    requires k <= |s| && IsHead(s[..k]) && IsTail(s[k..])
    ensures IsToken(s)
  {
    assert s[..k][0] == s[0] && (k == 2 ==> s[..k][1] == s[1]);
    if s[0] == '_' {
      forall i | 1 <= i < |s| ensures IsWord(s[i]) && (i + 1 < |s| ==> !(s[i] == '_' && s[i + 1] == '_')) {
        assert s[i] == s[1..][i - 1];
        assert i + 1 < |s| ==> s[i + 1] == s[1..][i];
      }
      assert |s| > 1 ==> s[1] == s[1..][0];
    } else {
      JoinTail(s, k);
    }
  }

  /** The regular expression of the header accepts exactly the non-empty words over letters, digits
      and underscores that do not start with a digit and have no two adjacent underscores. */
  lemma TokenRegexIff(s: string)
    ensures Matches(TOKEN_REGEX, s) <==> IsToken(s)
  {
    forall k | 0 <= k <= |s|
      ensures Matches(HEAD, s[..k]) && Matches(Star(STEP), s[k..]) ==> IsToken(s)
    {
      MatchesHead(s[..k]);
      MatchesSteps(s[k..]);
      if IsHead(s[..k]) && IsTail(s[k..]) {
        TokenSplits(s, k);
      }
    }
    if IsToken(s) {
      var k := if s[0] != '_' && |s| > 1 && s[1] == '_' then 2 else 1;
      MatchesHead(s[..k]);
      SplitTail(s, k);
      MatchesSteps(s[k..]);
      assert Matches(HEAD, s[..k]) && Matches(Star(STEP), s[k..]);
    }
  }

  // ----- the lexeme languages -----

  const SERVICE_URL := "rosservice://"
  const TOPIC_URL := "rostopic://"

  ghost predicate InLanguage(l: Lexeme, s: string) {
    match l
    case NoLexeme => false
    case Eof => false
    case TildeSlash => s == "~/"
    case UrlService => s == SERVICE_URL
    case UrlTopic => s == TOPIC_URL
    case Colon => s == ":"
    case Node => s == "__node" || s == "__name"
    case Ns => s == "__ns"
    case Separator => s == ":="
    case BackReference(n) => |s| == 2 && s[0] == '\\' && '1' <= s[1] <= '9' && n == s[1] as int - '0' as int
    case Token => Matches(TOKEN_REGEX, s)
    case ForwardSlash => s == "/"
    case WildOne => s == "*"
    case WildMulti => s == "**"
    case Dot => s == "\\."
  }

  // ----- the scanner -----

  predicate StartsWith(text: string, prefix: string) {
    |prefix| <= |text| && text[..|prefix|] == prefix
  }

  /** How far the token that text[..n] begins extends. */
  function TokenEnd(text: string, n: nat): (e: nat)
    requires 0 < n <= |text|
    ensures n <= e <= |text|
    decreases |text| - n
  {
    if n < |text| && IsWord(text[n]) && !(text[n] == '_' && text[n - 1] == '_')
    then TokenEnd(text, n + 1) else n
  }

  function Analyze(text: string): Analysis {
    if text == [] then Analysis(Eof, 0)
    else if StartsWith(text, "~/") then Analysis(TildeSlash, 2)
    else if StartsWith(text, ":=") then Analysis(Separator, 2)
    else if StartsWith(text, ":") then Analysis(Colon, 1)
    else if StartsWith(text, "/") then Analysis(ForwardSlash, 1)
    else if StartsWith(text, "**") then Analysis(WildMulti, 2)
    else if StartsWith(text, "*") then Analysis(WildOne, 1)
    else if text[0] == '\\' && |text| > 1 && '1' <= text[1] <= '9' then
      Analysis(BackReference(text[1] as int - '0' as int), 2)
    else if StartsWith(text, "\\.") then Analysis(Dot, 2)
    else if text[0] == '\\' || text[0] == '~' then Analysis(NoLexeme, if |text| > 1 then 2 else 1)
    else if StartsWith(text, SERVICE_URL) then Analysis(UrlService, |SERVICE_URL|)
    else if StartsWith(text, TOPIC_URL) then Analysis(UrlTopic, |TOPIC_URL|)
    else if StartsWith(text, "__node") || StartsWith(text, "__name") then Analysis(Node, 6)
    else if StartsWith(text, "__ns") then Analysis(Ns, 4)
    else if IsLetter(text[0]) || text[0] == '_' then Analysis(Token, TokenEnd(text, 1))
    else Analysis(NoLexeme, 1)
  }

  lemma {:induction false} TokenEndIsLongest(text: string, n: nat)
    requires 0 < n <= |text| && IsToken(text[..n])
    ensures IsToken(text[..TokenEnd(text, n)])
    ensures forall m :: TokenEnd(text, n) < m <= |text| ==> !IsToken(text[..m])
    decreases |text| - n
  {
    if n == |text| {
    } else {
      var longer := text[..n + 1];
      assert forall i :: 0 <= i < n ==> longer[i] == text[..n][i];
      if IsWord(text[n]) && !(text[n] == '_' && text[n - 1] == '_') {
        forall i | 0 <= i < n ensures !(longer[i] == '_' && longer[i + 1] == '_') {
          assert i < n - 1 ==> !(text[..n][i] == '_' && text[..n][i + 1] == '_');
        }
        TokenEndIsLongest(text, n + 1);
      } else {
        forall m | n < m <= |text| ensures !IsToken(text[..m]) {
          assert text[..m][n] == text[n] && text[..m][n - 1] == text[n - 1];
        }
      }
    }
  }

  /** The languages are disjoint, so a text has at most one lexeme; in particular no token is
      `__node`, `__name` or `__ns`. */
  lemma LanguagesAreDisjoint(l: Lexeme, k: Lexeme, s: string)
    requires InLanguage(l, s) && InLanguage(k, s)
    ensures l == k
  {
    TokenRegexIff(s);
    KeywordsAreNoTokens(s);
  }

  lemma KeywordsAreNoTokens(s: string)
    ensures s in {"__node", "__name", "__ns", SERVICE_URL, TOPIC_URL} ==> !IsToken(s)
  {
    if s in {"__node", "__name", "__ns"} {
      assert s[0] == '_' && s[1] == '_';
    } else if s == SERVICE_URL {
      assert s[10] == ':';
    } else if s == TOPIC_URL {
      assert s[8] == ':';
    }
  }

  /** The part of a text that can still grow into a lexeme. */
  ghost predicate Viable(s: string) {
    exists l, more :: InLanguage(l, s + more)
  }

  predicate CanBegin(s: string) {
    && s != []
    && (s[0] in {'~', ':', '/', '*', '\\', '_'} || IsLetter(s[0]))
    && (s[0] == '~' && |s| > 1 ==> s[1] == '/')
    && (s[0] == '\\' && |s| > 1 ==> s[1] == '.' || '1' <= s[1] <= '9')
  }

  lemma LexemesBegin(l: Lexeme, s: string)
    ensures InLanguage(l, s) ==> CanBegin(s) && (s[0] in {'~', '\\'} ==> |s| == 2)
  {
    TokenRegexIff(s);
  }

  /** Main result: at the end of the text, and only there, the scanner reports the end of input;
      otherwise it takes at least one character and no more than there are.  A lexeme it reports is
      the longest one the text starts with. */
  lemma AnalyzeTakesLongest(text: string)
    ensures var a := Analyze(text);
            && a.length <= |text|
            && (a.lexeme == Eof <==> text == [])
            && (text != [] ==> a.length > 0)
            && (text != [] && a.lexeme != NoLexeme ==> InLanguage(a.lexeme, text[..a.length]))
            && (a.lexeme != NoLexeme ==> forall l, m :: a.length < m <= |text| ==> !InLanguage(l, text[..m]))
  {
    var a := Analyze(text);
    if text != [] {
      if IsLetter(text[0]) || text[0] == '_' {
        AnalyzeWord(text);
      } else if a.lexeme != NoLexeme {
        forall l, m | a.length < m <= |text| ensures !InLanguage(l, text[..m]) {
          TokenRegexIff(text[..m]);
        }
      }
    }
  }

  lemma AnalyzeWord(text: string)
    requires text != [] && (IsLetter(text[0]) || text[0] == '_')
    ensures var a := Analyze(text);
            && 0 < a.length <= |text| && a.lexeme != NoLexeme && a.lexeme != Eof
            && InLanguage(a.lexeme, text[..a.length])
            && forall l, m :: a.length < m <= |text| ==> !InLanguage(l, text[..m])
  {
    WordIsLexeme(text);
    forall l, m | Analyze(text).length < m <= |text| ensures !InLanguage(l, text[..m]) {
      NoLongerLexeme(text, l, m);
    }
  }

  lemma WordIsLexeme(text: string)
    requires text != [] && (IsLetter(text[0]) || text[0] == '_')
    ensures var a := Analyze(text);
            && 0 < a.length <= |text| && a.lexeme != NoLexeme && a.lexeme != Eof
            && InLanguage(a.lexeme, text[..a.length])
  {
    assert IsToken(text[..1]);
    TokenEndIsLongest(text, 1);
    TokenRegexIff(text[..TokenEnd(text, 1)]);
  }

  lemma NoLongerLexeme(text: string, l: Lexeme, m: nat)
    requires text != [] && (IsLetter(text[0]) || text[0] == '_')
    requires Analyze(text).length < m <= |text|
    ensures !InLanguage(l, text[..m])
  {
    TokenRegexIff(text[..m]);
    NoLongerToken(text, m);
    NoLongerLiteral(text, m);
    assert text[..m][0] == text[0];
  }

  lemma NoLongerToken(text: string, m: nat)
    requires text != [] && (IsLetter(text[0]) || text[0] == '_')
    requires Analyze(text).length < m <= |text|
    ensures !IsToken(text[..m])
  {
    assert IsToken(text[..1]);
    TokenEndIsLongest(text, 1);
    if StartsWith(text, SERVICE_URL) {
      assert text[..m][10] == text[..13][10] == SERVICE_URL[10];
    } else if StartsWith(text, TOPIC_URL) {
      assert text[..m][8] == text[..11][8] == TOPIC_URL[8];
    } else if StartsWith(text, "__node") || StartsWith(text, "__name") {
      assert text[..m][0] == text[..6][0] && text[..m][1] == text[..6][1];
    } else if StartsWith(text, "__ns") {
      assert text[..m][0] == text[..4][0] && text[..m][1] == text[..4][1];
    }
  }

  lemma NoLongerLiteral(text: string, m: nat)
    requires text != [] && (IsLetter(text[0]) || text[0] == '_')
    requires Analyze(text).length < m <= |text|
    ensures text[..m] != SERVICE_URL && text[..m] != TOPIC_URL
    ensures text[..m] != "__node" && text[..m] != "__name" && text[..m] != "__ns"
  {
    if text[..m] == SERVICE_URL {
      assert StartsWith(text, SERVICE_URL);
    } else if text[..m] == TOPIC_URL {
      assert StartsWith(text, TOPIC_URL);
    } else if text[..m] == "__node" {
      assert StartsWith(text, "__node");
    } else if text[..m] == "__name" {
      assert StartsWith(text, "__name");
    } else if text[..m] == "__ns" {
      assert StartsWith(text, "__ns");
    }
  }

  /** When no lexeme is found the reported length reaches to the character that made it impossible:
      what precedes that character could still have become a lexeme, and what includes it cannot,
      unless the text simply ended. */
  lemma NoLexemeLength(text: string)
    requires Analyze(text).lexeme == NoLexeme
    ensures var n := Analyze(text).length;
            && Viable(text[..n - 1])
            && (n < |text| ==> !Viable(text[..n]))
            && (forall l, m :: 0 <= m <= |text| ==> !InLanguage(l, text[..m]))
  {
    var n := Analyze(text).length;
    AnalyzeTakesLongest(text);
    if text[0] == '~' {
      assert n == 2 ==> text[..1] == "~";
      assert "~" + "/" == "~/" && [] + "~/" == "~/";
      assert InLanguage(TildeSlash, "~" + "/") && InLanguage(TildeSlash, [] + "~/");
    } else {
      assert n == 2 ==> text[..1] == "\\";
      assert "\\" + "." == "\\." && [] + "\\." == "\\.";
      assert InLanguage(Dot, "\\" + ".") && InLanguage(Dot, [] + "\\.");
    }
    forall l, m | 0 <= m <= |text| ensures !InLanguage(l, text[..m]) {
      LexemesBegin(l, text[..m]);
      assert m > 0 ==> text[..m][0] == text[0];
      assert m > 1 ==> text[..m][1] == text[1];
    }
    if n < |text| {
      forall l, more ensures !InLanguage(l, text[..n] + more) {
        LexemesBegin(l, text[..n] + more);
        assert (text[..n] + more)[0] == text[0];
        assert n == 2 ==> (text[..n] + more)[1] == text[1];
      }
    }
  }
}
