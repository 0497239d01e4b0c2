/** The receiver's replay protection: a ring of sixteen 64-bit words that stands for the set of sequence
    numbers accepted within the last 1024. */
module ReplayProtection {
  const WINDOW_SIZE: nat := 1024
  const WORDS: nat := 16

  type uint64 = n: nat | n < 0x1_0000_0000_0000_0000

  // ---------------------------------------------------------------- the set it stands for

  /** Every number accepted so far, and the largest of them (zero before the first). */
  datatype Window = Window(accepted: set<nat>, largest: nat)

  /** A number is fresh when it was never accepted and is less than 1024 behind the largest. */
  predicate Fresh(w: Window, q: nat) {
    q !in w.accepted && (q > w.largest || w.largest - q < WINDOW_SIZE)
  }

  function After(w: Window, q: nat): Window {
    if Fresh(w, q) then Window(w.accepted + {q}, if q > w.largest then q else w.largest) else w
  }

  /** The window after a whole sequence of calls. */
  function Run(calls: seq<nat>): Window {
    if calls == [] then Window({}, 0) else After(Run(calls[..|calls| - 1]), calls[|calls| - 1])
  }

  /** `largest` really is the largest accepted number. */
  ghost predicate LargestOk(w: Window) {
    && (forall q :: q in w.accepted ==> q <= w.largest)
    && (w.largest in w.accepted || (w.accepted == {} && w.largest == 0))
  }

  lemma {:induction false} RunOk(calls: seq<nat>)
    ensures LargestOk(Run(calls))
  {
    if calls != [] {
      RunOk(calls[..|calls| - 1]);
    }
  }

  /** Call `i` of a run accepts its number. */
  predicate Accepts(calls: seq<nat>, i: nat)
    requires i < |calls|
  {
    Fresh(Run(calls[..i]), calls[i])
  }

  /** What the window remembers is exactly what earlier calls accepted, so a call accepts a number if and only if no
      earlier call accepted it and it is less than 1024 behind the largest number accepted so far. */
  lemma {:induction false} RemembersTheRun(calls: seq<nat>, q: nat)
    ensures q in Run(calls).accepted <==> exists i: nat :: i < |calls| && calls[i] == q && Accepts(calls, i)
  {
    if calls != [] {
      var last := |calls| - 1;
      RemembersTheRun(calls[..last], q);
      forall i: nat | i < last
        ensures Accepts(calls, i) == Accepts(calls[..last], i)
      {
        assert calls[..last][..i] == calls[..i];
      }
      assert Accepts(calls, last) == Fresh(Run(calls[..last]), calls[last]);
    }
  }

  /** Calls only add numbers and only move the window forward. */
  lemma {:induction false} RunGrows(calls: seq<nat>, m: nat, n: nat)
    requires m <= n <= |calls|
    ensures Run(calls[..m]).accepted <= Run(calls[..n]).accepted
    ensures Run(calls[..m]).largest <= Run(calls[..n]).largest
  {
    if m < n {
      RunGrows(calls, m, n - 1);
      assert calls[..n][..n - 1] == calls[..n - 1];
    }
  }

  /** Over any run, exactly which calls are accepted: those whose number no earlier accepted call had, unless one had a
      number that is 1024 or more larger. */
  lemma AcceptedExactly(calls: seq<nat>, i: nat)
    requires i < |calls|
    ensures Accepts(calls, i) <==>
      forall j: nat :: j < i && Accepts(calls, j) ==> calls[j] != calls[i] && calls[j] < calls[i] + 1024
  {
    var w := Run(calls[..i]);
    RunOk(calls[..i]);
    AcceptedBefore(calls, i, calls[i]);
    AcceptedBefore(calls, i, w.largest);
    forall j: nat | j < i && Accepts(calls, j)
      ensures calls[j] in w.accepted && calls[j] <= w.largest
    {
      AcceptedBefore(calls, i, calls[j]);
    }
  }

  lemma AcceptedBefore(calls: seq<nat>, i: nat, q: nat)
    requires i <= |calls|
    ensures q in Run(calls[..i]).accepted <==> exists j: nat :: j < i && calls[j] == q && Accepts(calls, j)
  {
    var before := calls[..i];
    RemembersTheRun(before, q);
    forall j: nat | j < i
      ensures Accepts(before, j) == Accepts(calls, j)
    {
      assert before[..j] == calls[..j];
    }
  }

  /** Over any run no number is accepted twice. */
  lemma NoReplay(calls: seq<nat>, i: nat, j: nat)
    requires i < j < |calls| && calls[i] == calls[j] && Accepts(calls, i)
    ensures !Accepts(calls, j)
  {
    assert calls[..i + 1][..i] == calls[..i];
    RunGrows(calls, i + 1, j);
  }

  /** Over any run a number that has fallen out of the window stays rejected. */
  lemma StaysTooOld(calls: seq<nat>, i: nat, j: nat)
    requires i <= j < |calls| && calls[j] + WINDOW_SIZE <= Run(calls[..i]).largest
    ensures !Accepts(calls, j)
  {
    RunGrows(calls, i, j);
  }

  // ---------------------------------------------------------------- bits

  /** `1ULL << bit`. */
  function One(bit: bv6): bv64 {
    (1 as bv64) << bit
  }

  predicate Bit(word: bv64, bit: bv6) {
    word & One(bit) != 0
  }

  lemma OthersKept(word: bv64, bit: bv6, other: bv6)
    requires bit != other
    ensures (word | One(bit)) & One(other) == word & One(other)
  {
  }

  lemma OwnSet(word: bv64, bit: bv6)
    ensures (word | One(bit)) & One(bit) == One(bit) && One(bit) != 0
  {
  }

  /** `word |= 1ULL << bit` sets that bit and no other. */
  lemma BitSet(word: bv64, bit: bv6, other: bv6)
    ensures Bit(word | One(bit), other) == if other == bit then true else Bit(word, other)
  {
    if other == bit {
      OwnSet(word, bit);
    } else {
      OthersKept(word, bit, other);
    }
  }

  /** `word &= ~(1ULL << bit)` clears that bit and no other. */
  lemma BitCleared(word: bv64, bit: bv6, other: bv6)
    ensures Bit(word & !One(bit), other) == if other == bit then false else Bit(word, other)
  {
  }

  function Number(bit: bv6): nat {
    bit as nat
  }

  lemma NumberOf(b: nat)
    requires b < 64
    ensures Number(b as bv6) == b
  {
  }

  lemma NumbersDiffer(bit: bv6, other: bv6)
    ensures Number(bit) < 64
    ensures Number(bit) == Number(other) ==> bit == other
  {
  }

  /** Bit `b` of word `i` is flag number `64 i + b`. How a word holds its bits and how they are numbered are
      parameters: what ties the ring to its flags does not depend on either. */
  ghost predicate Tied<W, B(!new)>(words: seq<W>, flags: seq<bool>, read: (W, B) -> bool, number: B -> nat) {
    && |words| == WORDS && |flags| == WINDOW_SIZE
    && forall i, b: B {:trigger read(words[i], b)} :: 0 <= i < WORDS && number(b) < 64 ==>
         flags[i * 64 + number(b)] == read(words[i], b)
  }

  /** Writing one bit of one word writes one flag. */
  lemma TiedAfterWrite<W, B(!new)>(words: seq<W>, flags: seq<bool>, read: (W, B) -> bool, number: B -> nat,
                                   i: nat, bit: B, word: W, on: bool)
    requires Tied(words, flags, read, number) && i < WORDS && number(bit) < 64
    requires forall b: B :: number(b) == number(bit) ==> b == bit
    requires forall b: B :: read(word, b) == if b == bit then on else read(words[i], b)
    ensures Tied(words[i := word], flags[i * 64 + number(bit) := on], read, number)
  {
    var ws, fs := words[i := word], flags[i * 64 + number(bit) := on];
    forall j, b: B | 0 <= j < WORDS && number(b) < 64
      ensures fs[j * 64 + number(b)] == read(ws[j], b)
    {
      assert flags[j * 64 + number(b)] == read(words[j], b);
    }
  }

  function Position(q: nat): (p: nat)
    ensures p < WINDOW_SIZE
  {
    q % WINDOW_SIZE
  }

  /** The word index and bit number of the code address that position. */
  lemma Addressing(q: nat)
    ensures (q / 64) % (WINDOW_SIZE / 64) * 64 + q % 64 == Position(q)
  {
    var block, word := q / WINDOW_SIZE, (q / 64) % (WINDOW_SIZE / 64);
    assert q / 64 == block * (WINDOW_SIZE / 64) + word;
    assert q == block * WINDOW_SIZE + (word * 64 + q % 64);
  }

  /** Numbers less than 1024 apart have different positions. */
  lemma PositionsDistinct(q: nat, r: nat)
    requires q < r < q + WINDOW_SIZE
    ensures Position(q) != Position(r)
  {
  }

  /** The flags of the last 1024 numbers up to `top` say exactly which of them were accepted. */
  ghost predicate Represents(flags: seq<bool>, accepted: set<nat>, top: nat) {
    && |flags| == WINDOW_SIZE
    && forall q: nat :: q <= top < q + WINDOW_SIZE ==> (flags[Position(q)] <==> q in accepted)
  }

  lemma RepresentsCleared(flags: seq<bool>, accepted: set<nat>, top: nat)
    requires Represents(flags, accepted, top) && top + 1 !in accepted
    ensures Represents(flags[Position(top + 1) := false], accepted, top + 1)
  {
    forall q: nat | q <= top + 1 < q + WINDOW_SIZE
      ensures flags[Position(top + 1) := false][Position(q)] <==> q in accepted
    {
      if q <= top {
        PositionsDistinct(q, top + 1);
      }
    }
  }

  lemma RepresentsAccepted(flags: seq<bool>, accepted: set<nat>, top: nat, q: nat)
    requires Represents(flags, accepted, top) && q <= top < q + WINDOW_SIZE
    ensures Represents(flags[Position(q) := true], accepted + {q}, top)
  {
    forall r: nat | r <= top < r + WINDOW_SIZE
      ensures flags[Position(q) := true][Position(r)] <==> r in accepted + {q}
    {
      if r < q {
        PositionsDistinct(r, q);
      } else if q < r {
        PositionsDistinct(q, r);
      }
    }
  }

  /** The bit number of a sequence number within its word. */
  method BitOf(sequence: nat) returns (bit: bv6)
    ensures Number(bit) < 64 && (sequence / 64) % (WINDOW_SIZE / 64) * 64 + Number(bit) == Position(sequence)
    ensures forall b: bv6 :: Number(b) == Number(bit) ==> b == bit
  {
    NumberOf(sequence % 64);
    Addressing(sequence);
    bit := (sequence % 64) as bv6;
    forall b: bv6
      ensures Number(b) == Number(bit) ==> b == bit
    {
      NumbersDiffer(bit, b);
    }
  }

  /** `word |= 1ULL << bit` or `word &= ~(1ULL << bit)`. */
  method WordWith(before: bv64, bit: bv6, on: bool) returns (word: bv64)
    ensures forall b: bv6 :: Bit(word, b) == if b == bit then on else Bit(before, b)
  {
    word := if on then before | One(bit) else before & !One(bit);
    forall b: bv6
      ensures Bit(word, b) == if b == bit then on else Bit(before, b)
    {
      BitSet(before, bit, b);
      BitCleared(before, bit, b);
    }
  }

  class SequenceWindow {
    var maxSequenceReceived: uint64
    const sequenceWindow: array<bv64>
    ghost var flags: seq<bool>
    ghost var window: Window

    ghost predicate Valid()
      reads this, sequenceWindow
    {
      && Tied(sequenceWindow[..], flags, Bit, Number)
      && window.largest == maxSequenceReceived && LargestOk(window)
      && Represents(flags, window.accepted, maxSequenceReceived)
    }

    constructor ()
      ensures Valid() && fresh(sequenceWindow) && window == Run([])
    {
      maxSequenceReceived := 0;
      sequenceWindow := new bv64[WORDS](_ => 0);
      flags := seq(WINDOW_SIZE, _ => false);
      window := Window({}, 0);
    }

    /** `word |= bit` or `word &= ~bit` for one number. */
    method WriteBit(sequence: nat, on: bool)
      requires Tied(sequenceWindow[..], flags, Bit, Number)
      modifies this`flags, sequenceWindow
      ensures Tied(sequenceWindow[..], flags, Bit, Number) && flags == old(flags)[Position(sequence) := on]
    {
      var wordIdx := (sequence / 64) % (WINDOW_SIZE / 64);
      var bit := BitOf(sequence);
      ghost var words := sequenceWindow[..];
      var word := WordWith(sequenceWindow[wordIdx], bit, on);
      TiedAfterWrite(words, flags, Bit, Number, wordIdx, bit, word, on);
      sequenceWindow[wordIdx] := word;
      flags := flags[Position(sequence) := on];
      assert sequenceWindow[..] == words[wordIdx := word];
    }

    method TestBit(sequence: nat) returns (on: bool)
      requires Tied(sequenceWindow[..], flags, Bit, Number)
      ensures on == flags[Position(sequence)]
    {
      var wordIdx := (sequence / 64) % (WINDOW_SIZE / 64);
      var bit := BitOf(sequence);
      ghost var words := sequenceWindow[..];
      assert flags[wordIdx * 64 + Number(bit)] == Bit(words[wordIdx], bit);
      on := Bit(sequenceWindow[wordIdx], bit);
    }

    /** std::fill with zero. */
    method ClearAll()
      requires Tied(sequenceWindow[..], flags, Bit, Number)
      modifies this`flags, sequenceWindow
      ensures Tied(sequenceWindow[..], flags, Bit, Number) && flags == seq(WINDOW_SIZE, _ => false)
    {
      forall i | 0 <= i < sequenceWindow.Length {
        sequenceWindow[i] := 0;
      }
      flags := seq(WINDOW_SIZE, _ => false);
    }

    /** Moves the window forward to a new maximum, forgetting the numbers it leaves behind. */
    method Advance(sequence: uint64)
      requires Valid() && maxSequenceReceived < sequence
      modifies this`flags, sequenceWindow
      ensures Tied(sequenceWindow[..], flags, Bit, Number) && Represents(flags, window.accepted, sequence)
    {
      var diff := sequence - maxSequenceReceived;
      if diff >= WINDOW_SIZE {
        ClearAll();
      } else {
        for i := 0 to diff
          invariant Tied(sequenceWindow[..], flags, Bit, Number)
          invariant Represents(flags, window.accepted, maxSequenceReceived + i)
        {
          var targetSeq := maxSequenceReceived + i + 1;
          RepresentsCleared(flags, window.accepted, maxSequenceReceived + i);
          WriteBit(targetSeq, false);
        }
      }
    }

    /** Accepts a number exactly when it is fresh, and then remembers it. */
    method ValidateSequence(sequence: uint64) returns (ok: bool)
      requires Valid()
      modifies this, sequenceWindow
      ensures Valid()
      ensures ok <==> Fresh(old(window), sequence)
      ensures window == After(old(window), sequence)
    {
      if sequence > maxSequenceReceived {
        Advance(sequence);
        maxSequenceReceived := sequence;
      } else {
        if maxSequenceReceived - sequence >= WINDOW_SIZE {
          return false;
        }
      }
      var replayed := TestBit(sequence);
      if replayed {
        return false;
      }
      RepresentsAccepted(flags, window.accepted, maxSequenceReceived, sequence);
      WriteBit(sequence, true);
      window := After(window, sequence);
      return true;
    }
  }
}
