/** The two-lexeme lookahead buffer: src/rcl/lexer_lookahead.h.

    The buffer caches up to two analyses of the text ahead of its position.  The module proves that
    the cache is invisible: whatever mix of calls drives the buffer, it accepts the lexemes that
    plain repeated analysis finds, and what it has accepted is what it has consumed.
 */
module LexerLookahead {
  import opened Common
  import opened Lexer

  /** An accepted lexeme with its text. */
  datatype Piece = Piece(lexeme: Lexeme, text: string)

  // ----- plain repeated analysis -----

  /** A scanner never takes more than there is. */
  ghost predicate Sound(scan: string -> Analysis) {
    forall text :: scan(text).length <= |text|
  }

  lemma AnalyzeIsSound()
    ensures Sound(Analyze)
  {
    forall text ensures Analyze(text).length <= |text| {
      AnalyzeTakesLongest(text);
    }
  }

  /** What is left of `text` after `n` lexemes. */
  ghost function Rest(scan: string -> Analysis, text: string, n: nat): string
    requires Sound(scan)
    decreases n
  {
    if n == 0 then text else Rest(scan, text[scan(text).length..], n - 1)
  }

  /** The first `n` lexemes of `text`; at its end the end of input repeats. */
  ghost function Pieces(scan: string -> Analysis, text: string, n: nat): (ps: seq<Piece>)
    requires Sound(scan)
    ensures |ps| == n
    decreases n
  {
    if n == 0 then [] else
      var a := scan(text);
      [Piece(a.lexeme, text[..a.length])] + Pieces(scan, text[a.length..], n - 1)
  }

  function Concat(ps: seq<Piece>): string
    decreases ps
  {
    if ps == [] then [] else ps[0].text + Concat(ps[1..])
  }

  /** The texts of the lexemes so far and the rest make up the whole text. */
  lemma {:induction false} PiecesCoverText(scan: string -> Analysis, text: string, n: nat)
    requires Sound(scan)
    ensures Concat(Pieces(scan, text, n)) + Rest(scan, text, n) == text
    decreases n
  {
    if n == 0 {
    } else {
      var k := scan(text).length;
      var head, tail, rest := text[..k], Pieces(scan, text[k..], n - 1), Rest(scan, text[k..], n - 1);
      PiecesCoverText(scan, text[k..], n - 1);
      assert Pieces(scan, text, n)[1..] == tail;
      Associate(head, Concat(tail), rest);
      Halves(text, k);
    }
  }

  lemma {:induction false} OneMore(scan: string -> Analysis, text: string, n: nat)
    requires Sound(scan)
    ensures var r := Rest(scan, text, n);
            && Rest(scan, text, n + 1) == r[scan(r).length..]
            && Pieces(scan, text, n + 1) == Pieces(scan, text, n) + [Piece(scan(r).lexeme, r[..scan(r).length])]
    decreases n
  {
    if n == 0 {
      assert Pieces(scan, text, 1) == [] + [Piece(scan(text).lexeme, text[..scan(text).length])];
    } else {
      OneMore(scan, text[scan(text).length..], n - 1);
    }
  }

  lemma AtMostOneMore(scan: string -> Analysis, text: string, n: nat, taken: seq<Piece>)
    requires Sound(scan) && |taken| <= 1 && taken == Pieces(scan, Rest(scan, text, n), |taken|)
    ensures Pieces(scan, text, n) + taken == Pieces(scan, text, n + |taken|)
    ensures Rest(scan, Rest(scan, text, n), |taken|) == Rest(scan, text, n + |taken|)
  {
    if |taken| == 0 {
      assert Pieces(scan, text, n) + taken == Pieces(scan, text, n);
    } else {
      OneMore(scan, text, n);
      FirstPiece(scan, Rest(scan, text, n));
    }
  }

  /** The next lexeme splits the text ahead. */
  lemma FirstPiece(scan: string -> Analysis, text: string)
    requires Sound(scan)
    ensures Pieces(scan, text, 1)[0].text == text[..scan(text).length]
    ensures Rest(scan, text, 1) == text[scan(text).length..]
    ensures text == Pieces(scan, text, 1)[0].text + Rest(scan, text, 1)
  {
    OneMore(scan, text, 0);
    Halves(text, scan(text).length);
  }

  lemma SliceAhead(text: string, pos: nat, n: nat)
    requires pos + n <= |text|
    ensures text[pos..][..n] == text[pos..pos + n] && text[pos..][n..] == text[pos + n..]
  {
  }

  lemma {:induction false} ProgressTerminates(scan: string -> Analysis, text: string, n: nat)
    requires Sound(scan) && (forall t: string :: t != [] ==> scan(t).length > 0)
    requires |text| <= n
    ensures Rest(scan, text, n) == []
    decreases n
  {
    if n == 0 {
    } else {
      ProgressTerminates(scan, text[scan(text).length..], n - 1);
    }
  }

  /** Lexing terminates: |text| lexemes use up all of the text, and then the input has ended. */
  lemma LexingTerminates(text: string, n: nat)
    requires |text| <= n
    ensures Sound(Analyze)
    ensures Rest(Analyze, text, n) == [] && Analyze(Rest(Analyze, text, n)).lexeme == Eof
  {
    AnalyzeIsSound();
    forall t: string | t != [] ensures Analyze(t).length > 0 {
      AnalyzeTakesLongest(t);
    }
    ProgressTerminates(Analyze, text, n);
  }

  // ----- the buffer -----

  /** Success, or one of RCL_RET_WRONG_LEXEME and RCL_RET_ERROR. */
  datatype Accepted = Ok(text: string) | WrongLexeme | NothingPeeked

  function Max(a: nat, b: nat): nat {
    if a < b then b else a
  }

  class Buffer {
    // rcl_lexer_analyze in the source; any scanner that does not overrun the text will do.
    const scan: string -> Analysis
    const text: string
    var pos: nat
    var cache: seq<Analysis>

    ghost predicate Valid()
      reads this
    {
      && Sound(scan) && pos <= |text|
      && |cache| <= 2
      && (|cache| > 0 ==> cache[0] == scan(text[pos..]))
      && (|cache| > 1 ==> cache[1] == scan(text[pos..][cache[0].length..]))
    }

    constructor (scan: string -> Analysis, text: string)
      requires Sound(scan)
      ensures Valid() && this.scan == scan && this.text == text && pos == 0 && cache == []
    {
      this.scan, this.text, pos, cache := scan, text, 0, [];
    }

    /** rcl_lexer_lookahead2_get_text */
    function GetText(): (r: string)
      requires Valid()
      reads this
      ensures text[..pos] + r == text
    {
      text[pos..]
    }

    method Peek() returns (next: Lexeme)
      requires Valid()
      modifies `cache
      ensures Valid() && old(cache) <= cache && |cache| == Max(1, |old(cache)|)
      ensures next == scan(GetText()).lexeme
    {
      if cache == [] {
        cache := [scan(text[pos..])];
      }
      next := cache[0].lexeme;
    }

    method Peek2() returns (next1: Lexeme, next2: Lexeme)
      requires Valid()
      modifies `cache
      ensures Valid() && |cache| == 2 && old(cache) <= cache
      ensures next1 == scan(GetText()).lexeme
      ensures next2 == scan(Rest(scan, GetText(), 1)).lexeme
    {
      next1 := Peek();
      FirstPiece(scan, GetText());
      if |cache| == 1 {
        cache := [cache[0], scan(text[pos..][cache[0].length..])];
      }
      next2 := cache[1].lexeme;
    }

    /** `taken` and the text now ahead are what the next lexeme of `before` splits it into. */
    ghost predicate Advanced(before: string, taken: string)
      requires Valid()
      reads this
    {
      && GetText() == Rest(scan, before, 1)
      && taken == Pieces(scan, before, 1)[0].text
      && before == taken + GetText()
    }

    /** A lexeme must have been peeked before it can be accepted. */
    method Accept() returns (r: Accepted)
      requires Valid()
      modifies this
      ensures Valid()
      ensures old(cache) == [] ==> r == NothingPeeked && pos == old(pos) && cache == []
      ensures old(cache) != [] ==> r.Ok? && Advanced(old(GetText()), r.text) && |cache| == |old(cache)| - 1
    {
      if cache == [] {
        return NothingPeeked;
      }
      ghost var before := text[pos..];
      FirstPiece(scan, before);
      var n := cache[0].length;
      SliceAhead(text, pos, n);
      r := Ok(text[pos..pos + n]);
      pos := pos + n;
      cache := cache[1..];
    }

    method Expect(lexeme: Lexeme) returns (r: Accepted)
      requires Valid()
      modifies this
      ensures Valid()
      ensures r.Ok? <==> scan(old(GetText())).lexeme == lexeme
      ensures r.Ok? ==> Advanced(old(GetText()), r.text) && |cache| == Max(1, |old(cache)|) - 1
      ensures !r.Ok? ==> r == WrongLexeme && pos == old(pos) && |cache| == Max(1, |old(cache)|)
    {
      var next := Peek();
      if next != lexeme {
        return WrongLexeme;
      }
      r := Accept();
    }
  }

  // ----- driving the buffer -----

  datatype Call = CallPeek | CallPeek2 | CallAccept | CallExpect(lexeme: Lexeme)

  /** How many lexemes have been accepted, and how many are peeked ahead. */
  datatype Progress = Progress(accepted: nat, peeked: nat)

  /** What a call does: an accept takes a lexeme if one has been peeked, an expect if the next lexeme
      is the one expected. */
  function Progressed(p: Progress, call: Call, next: Lexeme): Progress {
    match call
    case CallPeek => p.(peeked := Max(1, p.peeked))
    case CallPeek2 => p.(peeked := 2)
    case CallAccept => if p.peeked == 0 then p else Progress(p.accepted + 1, p.peeked - 1)
    case CallExpect(lexeme) =>
      var peeked := Max(1, p.peeked);
      if next == lexeme then Progress(p.accepted + 1, peeked - 1) else p.(peeked := peeked)
  }

  /** What a call reports when `next1` and `next2` are ahead. */
  function Reported(call: Call, next1: Lexeme, next2: Lexeme): seq<Lexeme> {
    match call
    case CallPeek => [next1]
    case CallPeek2 => [next1, next2]
    case _ => []
  }

  /** The progress after all calls, and what all peeks have reported. */
  datatype Outcome = Outcome(progress: Progress, reports: seq<Lexeme>)

  /** The outcome of the calls from the i-th on, `o` being that of the calls before; `next(n)` is the
      lexeme after the first `n`, and the outcome depends on nothing else. */
  function OutcomeFrom(next: nat -> Lexeme, calls: seq<Call>, i: nat, o: Outcome): Outcome
    requires i <= |calls|
    decreases |calls| - i
  {
    if i == |calls| then o else
      var n := o.progress.accepted;
      var reports := o.reports + Reported(calls[i], next(n), next(n + 1));
      OutcomeFrom(next, calls, i + 1, Outcome(Progressed(o.progress, calls[i], next(n)), reports))
  }

  function OutcomeOf(next: nat -> Lexeme, calls: seq<Call>): Outcome {
    OutcomeFrom(next, calls, 0, Outcome(Progress(0, 0), []))
  }

  /** The lexemes that plain analysis finds. */
  ghost function Nexts(scan: string -> Analysis, text: string): nat -> Lexeme
    requires Sound(scan)
  {
    (n: nat) => scan(Rest(scan, text, n)).lexeme
  }

  lemma NextsAre(scan: string -> Analysis, text: string, n: nat)
    requires Sound(scan)
    ensures var ahead := Rest(scan, text, n);
            && Nexts(scan, text)(n) == scan(ahead).lexeme
            && Nexts(scan, text)(n + 1) == scan(Rest(scan, ahead, 1)).lexeme
  {
    OneMore(scan, text, n);
    FirstPiece(scan, Rest(scan, text, n));
  }

  lemma ProgressShift(p: Progress, call: Call, next: Lexeme)
    ensures var q := Progressed(Progress(0, p.peeked), call, next);
            Progressed(p, call, next) == Progress(p.accepted + q.accepted, q.peeked)
  {
  }

  /** One call on a buffer; the lexeme it accepts, if any, and those it reports. */
  method Perform(b: Buffer, call: Call) returns (taken: seq<Piece>, reported: seq<Lexeme>)
    requires b.Valid()
    modifies b
    ensures b.Valid()
    ensures var was := Progress(0, |old(b.cache)|);
            Progress(|taken|, |b.cache|) == Progressed(was, call, b.scan(old(b.GetText())).lexeme)
    ensures taken == Pieces(b.scan, old(b.GetText()), |taken|) && b.GetText() == Rest(b.scan, old(b.GetText()), |taken|)
    ensures var ahead := old(b.GetText());
            reported == Reported(call, b.scan(ahead).lexeme, b.scan(Rest(b.scan, ahead, 1)).lexeme)
  {
    taken, reported := [], [];
    ghost var before := b.GetText();
    OneMore(b.scan, before, 0);
    FirstPiece(b.scan, before);
    match call {
      case CallPeek =>
        var next := b.Peek();
        reported := [next];
      case CallPeek2 =>
        var next1, next2 := b.Peek2();
        reported := [next1, next2];
      case CallAccept =>
        // The caller knows what it accepts from its last peek.
        var peeked := b.cache;
        var r := b.Accept();
        if r.Ok? {
          taken := [Piece(peeked[0].lexeme, r.text)];
        }
      case CallExpect(lexeme) =>
        var r := b.Expect(lexeme);
        if r.Ok? {
          taken := [Piece(lexeme, r.text)];
        }
    }
  }

  /** What has been accepted so far is what plain analysis finds first. */
  ghost predicate AreFirst(scan: string -> Analysis, text: string, accepted: seq<Piece>, rest: string)
    requires Sound(scan)
  {
    accepted == Pieces(scan, text, |accepted|) && rest == Rest(scan, text, |accepted|)
  }

  lemma StillFirst(scan: string -> Analysis, text: string, accepted: seq<Piece>, rest: string, taken: seq<Piece>)
    requires Sound(scan) && AreFirst(scan, text, accepted, rest)
    requires |taken| <= 1 && taken == Pieces(scan, rest, |taken|)
    ensures AreFirst(scan, text, accepted + taken, Rest(scan, rest, |taken|))
  {
    var n := |accepted| + |taken|;
    AtMostOneMore(scan, text, |accepted|, taken);
    assert |accepted + taken| == n;
  }

  /** One more call: `q` is what it does to a buffer with nothing accepted yet. */
  lemma OutcomeNext(
    next: nat -> Lexeme, calls: seq<Call>, i: nat, accepted: seq<Piece>, peeked: nat, reports: seq<Lexeme>,
    taken: seq<Piece>, left: nat, reported: seq<Lexeme>)
    requires i < |calls|
    requires Progress(|taken|, left) == Progressed(Progress(0, peeked), calls[i], next(|accepted|))
    requires reported == Reported(calls[i], next(|accepted|), next(|accepted| + 1))
    ensures OutcomeFrom(next, calls, i, Outcome(Progress(|accepted|, peeked), reports)) ==
            OutcomeFrom(next, calls, i + 1, Outcome(Progress(|accepted + taken|, left), reports + reported))
  {
    ProgressShift(Progress(|accepted|, peeked), calls[i], next(|accepted|));
  }

  /** The same in terms of the whole text, the first lexemes of which have been accepted. */
  method PerformAt(b: Buffer, ghost text: string, accepted: seq<Piece>, call: Call)
    returns (taken: seq<Piece>, reported: seq<Lexeme>)
    requires b.Valid() && AreFirst(b.scan, text, accepted, b.GetText())
    modifies b
    ensures b.Valid() && AreFirst(b.scan, text, accepted + taken, b.GetText())
    ensures var was, next := Progress(0, |old(b.cache)|), Nexts(b.scan, text);
            && Progress(|taken|, |b.cache|) == Progressed(was, call, next(|accepted|))
            && reported == Reported(call, next(|accepted|), next(|accepted| + 1))
  {
    ghost var rest := b.GetText();
    NextsAre(b.scan, text, |accepted|);
    taken, reported := Perform(b, call);
    StillFirst(b.scan, text, accepted, rest, taken);
  }

  /** Any mix of calls on a new buffer accepts the first lexemes that plain analysis finds, in
      order, as many as the calls ask for, and their texts make up exactly the text consumed. */
  method DriveOver(scan: string -> Analysis, text: string, calls: seq<Call>)
    returns (accepted: seq<Piece>, rest: string, reports: seq<Lexeme>)
    requires Sound(scan)
    ensures reports == OutcomeOf(Nexts(scan, text), calls).reports
    ensures |accepted| == OutcomeOf(Nexts(scan, text), calls).progress.accepted
    ensures AreFirst(scan, text, accepted, rest) && Concat(accepted) + rest == text
  {
    var b := new Buffer(scan, text);
    accepted, reports := [], [];
    for i := 0 to |calls|
      invariant fresh(b) && b.Valid() && b.scan == scan
      invariant AreFirst(scan, text, accepted, b.GetText())
      invariant OutcomeFrom(Nexts(scan, text), calls, i, Outcome(Progress(|accepted|, |b.cache|), reports)) ==
                OutcomeOf(Nexts(scan, text), calls)
    {
      ghost var peeked := |b.cache|;
      var taken, reported := PerformAt(b, text, accepted, calls[i]);
      OutcomeNext(Nexts(scan, text), calls, i, accepted, peeked, reports, taken, |b.cache|, reported);
      accepted, reports := accepted + taken, reports + reported;
    }
    PiecesCoverText(scan, text, |accepted|);
    rest := b.GetText();
  }

  /** Main result: the buffer over rcl_lexer_analyze accepts and reports the lexemes of repeated
      rcl_lexer_analyze, whatever the mix of calls. */
  method Drive(text: string, calls: seq<Call>) returns (accepted: seq<Piece>, rest: string, reports: seq<Lexeme>)
    ensures Sound(Analyze)
    ensures reports == OutcomeOf(Nexts(Analyze, text), calls).reports
    ensures |accepted| == OutcomeOf(Nexts(Analyze, text), calls).progress.accepted
    ensures AreFirst(Analyze, text, accepted, rest) && Concat(accepted) + rest == text
  {
    AnalyzeIsSound();
    accepted, rest, reports := DriveOver(Analyze, text, calls);
  }
}
