/**
 The anti-replay window of a session: 1024 bits in sixteen 64-bit words, shifted in place, standing for
 the set of counters already accepted.

 A word is its 64 bits, least significant first, with the machine's shifts and bitwise or on them.
 */
module AntiReplay {
  const WORD_BITS: nat := 64
  const WINDOW_WORDS: nat := 16
  const WINDOW_SIZE: nat := 1024

  type Word = w: seq<bool> | |w| == 64 witness seq(64, _ => false)

  function Zeros(n: nat): (s: seq<bool>)
    ensures |s| == n && forall i :: 0 <= i < n ==> !s[i]
  {
    seq(n, _ => false)
  }

  const ZERO: Word := Zeros(64)

  const ONE: Word := [true] + Zeros(63)

  /** w << n: the top n bits fall off. */
  function Shl(w: Word, n: nat): Word
    requires n < WORD_BITS
  {
    Zeros(n) + w[..WORD_BITS - n]
  }

  /** w >> n: the low n bits fall off. */
  function Lshr(w: Word, n: nat): Word
    requires n < WORD_BITS
  {
    w[n..] + Zeros(n)
  }

  function BitOr(a: Word, b: Word): Word {
    seq(WORD_BITS, i requires 0 <= i < WORD_BITS => a[i] || b[i])
  }

  function BitAnd(a: Word, b: Word): Word {
    seq(WORD_BITS, i requires 0 <= i < WORD_BITS => a[i] && b[i])
  }

  /** Bit position p of a window; positions past its end are clear. */
  predicate Has(w: seq<Word>, p: nat) {
    p / WORD_BITS < |w| && w[p / WORD_BITS][p % WORD_BITS]
  }

  // ----- the window in place -----

  /** Clear a window. */
  method ClearWindow(window: array<Word>)
    modifies window
    ensures forall p: nat :: !Has(window[..], p)
  {
    for i := 0 to window.Length
      invariant forall j :: 0 <= j < i ==> window[j] == ZERO
    {
      window[i] := ZERO;
    }
  }

  method GetBit(window: array<Word>, pos: nat) returns (r: bool)
    requires window.Length == WINDOW_WORDS
    ensures r <==> Has(window[..], pos)
  {
    var word, bit := pos / WORD_BITS, pos % WORD_BITS;
    if word >= WINDOW_WORDS {
      return false;
    }
    var masked := BitAnd(window[word], Shl(ONE, bit));
    assert forall i :: 0 <= i < WORD_BITS ==> Shl(ONE, bit)[i] == (i == bit);
    assert masked[bit] == window[word][bit];
    r := masked != ZERO;
    assert masked != ZERO ==> exists i :: 0 <= i < WORD_BITS && masked[i];
  }

  method SetBit(window: array<Word>, pos: nat)
    requires window.Length == WINDOW_WORDS
    modifies window
    ensures forall p: nat :: Has(window[..], p) <==> (p == pos && p < WINDOW_SIZE) || Has(old(window[..]), p)
  {
    var word, bit := pos / WORD_BITS, pos % WORD_BITS;
    if word < WINDOW_WORDS {
      assert forall i :: 0 <= i < WORD_BITS ==> Shl(ONE, bit)[i] == (i == bit);
      window[word] := BitOr(window[word], Shl(ONE, bit));
    }
  }

  /** Word i of a window moved up by whole words and then by bits, carrying in from the word below. */
  function ShiftedWord(w: seq<Word>, wordShift: nat, bitShift: nat, i: nat): Word
    requires i < |w| && bitShift < WORD_BITS
  {
    if i < wordShift then ZERO
    else if bitShift == 0 then w[i - wordShift]
    else if i == wordShift then Shl(w[0], bitShift)
    else BitOr(Shl(w[i - wordShift], bitShift), Lshr(w[i - wordShift - 1], WORD_BITS - bitShift))
  }

  lemma ShiftedWordBit(w: seq<Word>, wordShift: nat, bitShift: nat, i: nat, b: nat)
    requires i < |w| && bitShift < WORD_BITS && b < WORD_BITS
    ensures ShiftedWord(w, wordShift, bitShift, i)[b] <==>
      if i >= wordShift && b >= bitShift then w[i - wordShift][b - bitShift]
      else i > wordShift && w[i - wordShift - 1][b + WORD_BITS - bitShift]
  {}

  /** Where position p of a shifted window comes from, by word and bit. */
  lemma PositionDifference(p: nat, bits: nat)
    ensures bits <= p <==> bits / WORD_BITS < p / WORD_BITS || (bits / WORD_BITS == p / WORD_BITS && bits % WORD_BITS <= p % WORD_BITS)
    ensures bits <= p && bits % WORD_BITS <= p % WORD_BITS ==>
      (p - bits) / WORD_BITS == p / WORD_BITS - bits / WORD_BITS && (p - bits) % WORD_BITS == p % WORD_BITS - bits % WORD_BITS
    ensures bits <= p && bits % WORD_BITS > p % WORD_BITS ==>
      (p - bits) / WORD_BITS == p / WORD_BITS - bits / WORD_BITS - 1
      && (p - bits) % WORD_BITS == p % WORD_BITS + WORD_BITS - bits % WORD_BITS
  {}

  /** Shifting every word moves bit p to p + bits, drops what leaves the window, and clears the low positions. */
  lemma ShiftedWindow(w: seq<Word>, shifted: seq<Word>, bits: nat, p: nat)
    requires |shifted| == |w|
    requires forall i :: 0 <= i < |w| ==> shifted[i] == ShiftedWord(w, bits / WORD_BITS, bits % WORD_BITS, i)
    ensures Has(shifted, p) <==> p / WORD_BITS < |w| && bits <= p && Has(w, p - bits)
  {
    hide ShiftedWord;
    PositionDifference(p, bits);
    if p / WORD_BITS < |w| {
      ShiftedWordBit(w, bits / WORD_BITS, bits % WORD_BITS, p / WORD_BITS, p % WORD_BITS);
    }
  }

  /** Shift the words in place, from the top down so that no word is read after it was overwritten. */
  method ShiftWindowLeft(window: array<Word>, bits: nat)
    requires window.Length == WINDOW_WORDS
    modifies window
    ensures forall p: nat :: Has(window[..], p) <==> bits <= p < WINDOW_SIZE && Has(old(window[..]), p - bits)
  {
    hide Has;
    if bits >= WINDOW_SIZE {
      ClearWindow(window);
      return;
    }
    var wordShift, bitShift := bits / WORD_BITS, bits % WORD_BITS;
    ghost var was: seq<Word> := window[..];
    if bitShift == 0 {
      for i := WINDOW_WORDS downto wordShift
        invariant forall j :: 0 <= j < i ==> window[j] == was[j]
        invariant forall j :: i <= j < WINDOW_WORDS ==> window[j] == ShiftedWord(was, wordShift, bitShift, j)
      {
        window[i] := window[i - wordShift];
      }
    } else {
      for i := WINDOW_WORDS downto wordShift
        invariant forall j :: 0 <= j < i ==> window[j] == was[j]
        invariant forall j :: i <= j < WINDOW_WORDS ==> window[j] == ShiftedWord(was, wordShift, bitShift, j)
      {
        var val := Shl(window[i - wordShift], bitShift);
        if i > wordShift {
          val := BitOr(val, Lshr(window[i - wordShift - 1], WORD_BITS - bitShift));
        }
        window[i] := val;
      }
    }
    for i := 0 to wordShift
      invariant forall j :: 0 <= j < i ==> window[j] == ZERO
      invariant forall j :: wordShift <= j < WINDOW_WORDS ==> window[j] == ShiftedWord(was, wordShift, bitShift, j)
    {
      window[i] := ZERO;
    }
    forall p: nat
      ensures Has(window[..], p) <==> bits <= p < WINDOW_SIZE && Has(was, p - bits)
    {
      ShiftedWindow(was, window[..], bits, p);
    }
  }

  // ----- the session -----

  /** What the window stands for: the highest counter accepted, and every counter accepted. */
  datatype Replay = Replay(recv: nat, accepted: set<nat>)

  const FRESH: Replay := Replay(0, {})

  predicate Accepts(s: Replay, counter: nat) {
    counter !in s.accepted && s.recv < counter + WINDOW_SIZE
  }

  function Receive(s: Replay, counter: nat): Replay {
    if Accepts(s, counter) then Replay(if counter > s.recv then counter else s.recv, s.accepted + {counter}) else s
  }

  class SessionState {
    var recvCounter: nat
    const recvWindow: array<Word>

    /** Every counter accepted since the session began. */
    ghost var accepted: set<nat>

    /** The bitmap denotes exactly the accepted counters within the window. */
    ghost predicate Valid()
      reads this, recvWindow
    {
      && recvWindow.Length == WINDOW_WORDS
      && (forall c :: c in accepted ==> c <= recvCounter)
      && (forall d :: 0 <= d < WINDOW_SIZE ==>
          (Has(recvWindow[..], d) <==> d <= recvCounter && recvCounter - d in accepted))
    }

    ghost function Contents(): Replay
      reads this
    {
      Replay(recvCounter, accepted)
    }

    constructor ()
      ensures Valid() && fresh(recvWindow) && Contents() == FRESH
    {
      recvCounter, accepted := 0, {};
      recvWindow := new Word[16](_ => ZERO);
    }

    /** A counter is accepted iff it was never accepted before and has not fallen out of the window. */
    method CheckCounter(counter: nat) returns (ok: bool)
      requires Valid()
      modifies this, recvWindow
      ensures Valid()
      ensures ok <==> Accepts(old(Contents()), counter)
      ensures Contents() == Receive(old(Contents()), counter)
    {
      if counter > recvCounter {
        var diff := counter - recvCounter;
        if diff < WINDOW_SIZE {
          ShiftWindowLeft(recvWindow, diff);
        } else {
          ClearWindow(recvWindow);
        }
        SetBit(recvWindow, 0);
        recvCounter := counter;
        accepted := accepted + {counter};
        return true;
      }
      var diff := recvCounter - counter;
      if diff >= WINDOW_SIZE {
        return false;
      }
      var seen := GetBit(recvWindow, diff);
      if seen {
        return false;
      }
      SetBit(recvWindow, diff);
      accepted := accepted + {counter};
      ok := true;
    }
  }

  // ----- whole runs -----

  function After(counters: seq<nat>): Replay {
    if counters == [] then FRESH
    else Receive(After(counters[..|counters| - 1]), counters[|counters| - 1])
  }

  /** Whether the i-th call of a run was accepted. */
  predicate Accepted(counters: seq<nat>, i: nat)
    requires i < |counters|
  {
    Accepts(After(counters[..i]), counters[i])
  }

  /** The accepted set of a run holds the counters of its accepted calls, and recv is the highest of them. */
  lemma {:induction false} AfterIsHistory(counters: seq<nat>)
    ensures var s := After(counters);
      && (forall c :: c in s.accepted <==> exists i :: 0 <= i < |counters| && counters[i] == c && Accepted(counters, i))
      && (forall c :: c in s.accepted ==> c <= s.recv)
      && (s.recv == 0 || s.recv in s.accepted)
  {
    hide Accepts;
    if counters != [] {
      var n := |counters| - 1;
      var before := counters[..n];
      AfterIsHistory(before);
      forall i | 0 <= i < n
        ensures Accepted(counters, i) == Accepted(before, i)
      {
        assert counters[..i] == before[..i];
      }
      var s := After(counters);
      forall c | c in s.accepted
        ensures exists i :: 0 <= i < |counters| && counters[i] == c && Accepted(counters, i)
      {
        if c in After(before).accepted {
          var i :| 0 <= i < n && before[i] == c && Accepted(before, i);
          assert counters[i] == c && Accepted(counters, i);
        } else {
          assert counters[n] == c && Accepted(counters, n);
        }
      }
      forall i | 0 <= i < |counters| && Accepted(counters, i)
        ensures counters[i] in s.accepted
      {
        if i < n {
          assert before[i] == counters[i] && Accepted(before, i);
        }
      }
    }
  }

  /**
   Over any run of calls, the i-th is accepted iff its counter was not accepted by an earlier call and no
   earlier call accepted a counter 1024 or more above it. So no counter is ever accepted twice.
   */
  lemma AcceptedExactlyOnce(counters: seq<nat>, i: nat)
    requires i < |counters|
    ensures Accepted(counters, i) <==>
      forall j :: 0 <= j < i && Accepted(counters, j) ==> counters[j] != counters[i] && counters[j] < counters[i] + WINDOW_SIZE
  {
    var before := counters[..i];
    AfterIsHistory(before);
    var s := After(before);
    forall j | 0 <= j < i
      ensures Accepted(counters, j) == Accepted(before, j) && before[j] == counters[j]
    {
      assert counters[..j] == before[..j];
    }
    if Accepted(counters, i) {
      forall j | 0 <= j < i && Accepted(counters, j)
        ensures counters[j] != counters[i] && counters[j] < counters[i] + WINDOW_SIZE
      {
        assert before[j] in s.accepted;
      }
    } else {
      if counters[i] in s.accepted {
        var j :| 0 <= j < |before| && before[j] == counters[i] && Accepted(before, j);
        assert Accepted(counters, j);
      } else {
        var j :| 0 <= j < |before| && before[j] == s.recv && Accepted(before, j);
        assert Accepted(counters, j);
      }
    }
  }
}
