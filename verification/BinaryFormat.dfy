/**
 * The gate section of the binary AIGER format (dep/aiger/aiger.c): every gate
 * is written as two differences of its literals, every difference as a
 * sequence of seven-bit groups, the lowest first.
 */
module BinaryFormat {
  import opened Aigs

  type Byte = b: int | 0 <= b < 256

  /** Literals and differences are 32-bit words. */
  const WORD := 0x1_0000_0000

  ghost function Pow128(i: nat): (p: nat)
    ensures p > 0
  {
    if i == 0 then 1 else 128 * Pow128(i - 1)
  }

  // ------------------------------------------------------------------
  // Differences
  // ------------------------------------------------------------------

  /** The groups of a number; all but the last carry the mark 128. */
  ghost function EncodeDelta(delta: nat): (r: seq<Byte>)
    ensures |r| > 0
  {
    if delta < 128 then [delta] else [delta % 128 + 128] + EncodeDelta(delta / 128)
  }

  /** Masks out the low group and shifts it away, while anything is left above it. */
  method WriteDelta(delta: nat) returns (bytes: seq<Byte>)
    ensures bytes == EncodeDelta(delta)
  {
    bytes := [];
    var tmp := delta;
    while tmp >= 128
      invariant EncodeDelta(delta) == bytes + EncodeDelta(tmp)
    {
      bytes := bytes + [tmp % 128 + 128];
      tmp := tmp / 128;
    }
    bytes := bytes + [tmp];
  }

  /**
   * What reading a difference gives: the number and the position after it, or
   * an error. A code of six groups that passes the reader's checks shifts by
   * more than the width of a word; C does not say what that gives.
   */
  datatype Delta = Value(delta: nat, next: nat) | UnexpectedEof | InvalidCode | Overwide

  ghost function DecodeDelta(bytes: seq<Byte>, pos: nat, i: nat, res: nat): Delta
    requires i <= 5
    decreases |bytes| - pos
  {
    if pos >= |bytes| then UnexpectedEof
    else if bytes[pos] >= 128 then
      if i == 5 then InvalidCode
      else DecodeDelta(bytes, pos + 1, i + 1, (res + bytes[pos] % 128 * Pow128(i)) % WORD)
    else if i == 5 then
      if bytes[pos] >= 8 then InvalidCode else Overwide
    else Value((res + bytes[pos] * Pow128(i)) % WORD, pos + 1)
  }

  lemma GroupSplit(u: nat, p: nat)
    ensures u * p == (u % 128) * p + (u / 128) * (128 * p)
  {
    assert u == u % 128 + 128 * (u / 128);
  }

  /** The bytes at a position start with the code of a number. */
  ghost predicate CodeAt(bytes: seq<Byte>, pos: nat, u: nat) {
    pos + |EncodeDelta(u)| <= |bytes| && bytes[pos..pos + |EncodeDelta(u)|] == EncodeDelta(u)
  }

  lemma CodeContinues(bytes: seq<Byte>, pos: nat, u: nat)
    requires CodeAt(bytes, pos, u)
    ensures pos < |bytes|
    ensures u < 128 ==> bytes[pos] == u && |EncodeDelta(u)| == 1
    ensures u >= 128 ==>
              && bytes[pos] == u % 128 + 128 && CodeAt(bytes, pos + 1, u / 128)
              && |EncodeDelta(u)| == 1 + |EncodeDelta(u / 128)|
  {
    var code := EncodeDelta(u);
    assert bytes[pos] == bytes[pos..pos + |code|][0] == code[0];
    if u >= 128 {
      var rest := EncodeDelta(u / 128);
      assert code[1..] == rest;
      assert bytes[pos + 1..pos + 1 + |rest|] == bytes[pos..pos + |code|][1..];
    }
  }

  /** One group with a mark is taken off the value that is left. */
  lemma GroupArithmetic(i: nat, res: nat, u: nat)
    requires i <= 4 && u >= 128 && res + u * Pow128(i) < WORD
    ensures i <= 3
    ensures (res + u % 128 * Pow128(i)) + (u / 128) * Pow128(i + 1) == res + u * Pow128(i)
    ensures res + u % 128 * Pow128(i) < WORD
  {
    FewGroups(i, u);
    var p := Pow128(i);
    GroupSplit(u, p);
    assert Pow128(i + 1) == 128 * p;
    MulMono(0, u / 128, 128 * p);
  }

  lemma MarkedGroup(bytes: seq<Byte>, pos: nat, i: nat, res: nat, group: nat)
    requires i <= 3 && pos < |bytes| && group < 128 && bytes[pos] == group + 128
    requires res + group * Pow128(i) < WORD
    ensures DecodeDelta(bytes, pos, i, res) == DecodeDelta(bytes, pos + 1, i + 1, res + group * Pow128(i))
  {
    assert (group + 128) % 128 == group;
  }

  lemma LastGroup(bytes: seq<Byte>, pos: nat, i: nat, res: nat, group: nat)
    requires i <= 4 && pos < |bytes| && group < 128 && bytes[pos] == group
    requires res + group * Pow128(i) < WORD
    ensures DecodeDelta(bytes, pos, i, res) == Value(res + group * Pow128(i), pos + 1)
  {
  }

  lemma {:induction false} EncodedDecodes(bytes: seq<Byte>, pos: nat, i: nat, res: nat, u: nat)
    requires i <= 4 && res + u * Pow128(i) < WORD && CodeAt(bytes, pos, u)
    ensures DecodeDelta(bytes, pos, i, res) == Value(res + u * Pow128(i), pos + |EncodeDelta(u)|)
    decreases u
  {
    hide CodeAt, EncodeDelta, DecodeDelta, Pow128;
    CodeContinues(bytes, pos, u);
    if u < 128 {
      LastGroup(bytes, pos, i, res, u);
    } else {
      GroupArithmetic(i, res, u);
      MarkedGroup(bytes, pos, i, res, u % 128);
      EncodedDecodes(bytes, pos + 1, i + 1, res + u % 128 * Pow128(i), u / 128);
    }
  }

  lemma MulMono(x: nat, y: nat, p: nat)
    requires x <= y
    ensures x * p <= y * p
  {
  }

  lemma FewGroups(i: nat, u: nat)
    requires i <= 4 && u >= 128 && u * Pow128(i) < WORD
    ensures i <= 3
  {
    assert Pow128(1) == 128;
    assert Pow128(2) == 16384;
    assert Pow128(3) == 2097152;
    assert Pow128(4) == 268435456;
    MulMono(128, u, Pow128(i));
  }

  /** Reading back what was written, for every word and whatever follows it. */
  lemma DeltaRoundTrip(before: seq<Byte>, delta: nat, after: seq<Byte>)
    requires delta < WORD
    ensures DecodeDelta(before + EncodeDelta(delta) + after, |before|, 0, 0)
            == Value(delta, |before + EncodeDelta(delta)|)
  {
    var bytes := before + EncodeDelta(delta) + after;
    assert bytes[|before|..|before| + |EncodeDelta(delta)|] == EncodeDelta(delta);
    assert Pow128(0) == 1;
    EncodedDecodes(bytes, |before|, 0, 0, delta);
  }

  // ------------------------------------------------------------------
  // Codes that do not give a number
  // ------------------------------------------------------------------

  /** The bytes from `pos` up to `end` carry the mark. */
  ghost predicate Marked(bytes: seq<Byte>, pos: nat, end: nat)
    requires end <= |bytes|
  {
    forall k :: pos <= k < end ==> bytes[k] >= 128
  }

  /** A number ends with the first byte without the mark, which is among the next `groups` ones. */
  ghost predicate EndsWithin(bytes: seq<Byte>, pos: nat, groups: nat, end: nat) {
    pos <= end < |bytes| && end < pos + groups && bytes[end] < 128 && Marked(bytes, pos, end)
  }

  /** The next `groups` bytes are there and marked, and one more byte follows. */
  ghost predicate TooLong(bytes: seq<Byte>, pos: nat, groups: nat) {
    pos + groups < |bytes| && Marked(bytes, pos, pos + groups)
  }

  lemma {:induction false} DecodedFrom(bytes: seq<Byte>, pos: nat, i: nat, res: nat)
    requires i <= 5
    ensures var d := DecodeDelta(bytes, pos, i, res);
            && (d.Overwide? <==> TooLong(bytes, pos, 5 - i) && bytes[pos + 5 - i] < 8)
            && (d.InvalidCode? <==> TooLong(bytes, pos, 5 - i) && bytes[pos + 5 - i] >= 8)
            && (d.UnexpectedEof? <==> |bytes| <= pos + 5 - i && Marked(bytes, pos, |bytes|))
            && (d.Value? ==> d.next > 0 && EndsWithin(bytes, pos, 5 - i, d.next - 1))
    decreases 5 - i
  {
    if pos < |bytes| && bytes[pos] >= 128 && i < 5 {
      var res' := (res + bytes[pos] % 128 * Pow128(i)) % WORD;
      DecodedFrom(bytes, pos + 1, i + 1, res');
      forall end | pos + 1 <= end <= |bytes|
        ensures Marked(bytes, pos, end) <==> Marked(bytes, pos + 1, end)
      {
      }
      assert TooLong(bytes, pos, 5 - i) <==> TooLong(bytes, pos + 1, 4 - i);
    } else if pos < |bytes| {
      assert bytes[pos] < 128 || i == 5;
    }
  }

  /**
   * Which bytes give which error. Five marked bytes and a sixth one below 8
   * pass the reader's checks although they need a shift by 35; from 8 on the
   * code is rejected; it ends too early if the input stops within the first
   * five bytes, all of them marked; everything else is a number.
   */
  lemma DeltaErrors(bytes: seq<Byte>, pos: nat)
    ensures DecodeDelta(bytes, pos, 0, 0).Overwide? <==> TooLong(bytes, pos, 5) && bytes[pos + 5] < 8
    ensures DecodeDelta(bytes, pos, 0, 0).InvalidCode? <==> TooLong(bytes, pos, 5) && bytes[pos + 5] >= 8
    ensures DecodeDelta(bytes, pos, 0, 0).UnexpectedEof? <==> |bytes| <= pos + 5 && Marked(bytes, pos, |bytes|)
    ensures DecodeDelta(bytes, pos, 0, 0).Value? <==> exists end :: EndsWithin(bytes, pos, 5, end)
  {
    DecodedFrom(bytes, pos, 0, 0);
    if end :| EndsWithin(bytes, pos, 5, end) {
      assert !TooLong(bytes, pos, 5) && !Marked(bytes, pos, |bytes|);
    }
  }

  /** Six bytes that are let through: a code of zero with five groups too many. */
  lemma OverwideIsLetThrough()
    ensures DecodeDelta([128, 128, 128, 128, 128, 0], 0, 0, 0) == Overwide
  {
    DeltaErrors([128, 128, 128, 128, 128, 0], 0);
  }

  // ------------------------------------------------------------------
  // Gates
  // ------------------------------------------------------------------

  ghost function EncodeGates(ands: seq<And>): (r: seq<Byte>)
    requires forall k :: 0 <= k < |ands| ==> ands[k].lhs >= ands[k].rhs0 >= ands[k].rhs1
  {
    if ands == [] then []
    else
      var last := ands[|ands| - 1];
      EncodeGates(ands[..|ands| - 1]) + EncodeDelta(last.lhs - last.rhs0) + EncodeDelta(last.rhs0 - last.rhs1)
  }

  method WriteGates(aig: Aig) returns (bytes: seq<Byte>)
    requires Ordered(aig)
    ensures bytes == EncodeGates(aig.ands)
  {
    hide EncodeDelta, WellDefined;
    bytes := [];
    var lhs := Var2Lit(FirstAnd(aig));
    for i := 0 to |aig.ands|
      invariant lhs == Var2Lit(FirstAnd(aig) + i)
      invariant bytes == EncodeGates(aig.ands[..i])
    {
      var conj := aig.ands[i];
      assert aig.ands[..i + 1][..i] == aig.ands[..i];
      var first := WriteDelta(lhs - conj.rhs0);
      var second := WriteDelta(conj.rhs0 - conj.rhs1);
      bytes := bytes + first + second;
      lhs := lhs + 2;
    }
    assert aig.ands[..|aig.ands|] == aig.ands;
  }

  datatype Gates = Gates(ands: seq<And>) | ReadError(error: Delta) | InvalidDelta

  class Reader {
    const bytes: seq<Byte>
    var pos: nat

    constructor (bytes: seq<Byte>)
      ensures this.bytes == bytes && pos == 0
    {
      this.bytes := bytes;
      pos := 0;
    }

    /** Reads groups until one without the mark; the word wraps around. */
    method ReadDelta() returns (r: Delta)
      modifies this
      ensures r == DecodeDelta(bytes, old(pos), 0, 0)
      ensures r.Value? ==> pos == r.next && r.delta < WORD
      ensures r.Overwide? <==> TooLong(bytes, old(pos), 5) && bytes[old(pos) + 5] < 8
      ensures r.InvalidCode? <==> TooLong(bytes, old(pos), 5) && bytes[old(pos) + 5] >= 8
      ensures r.UnexpectedEof? <==> |bytes| <= old(pos) + 5 && Marked(bytes, old(pos), |bytes|)
    {
      DeltaErrors(bytes, pos);
      var i, res, factor := 0, 0, 1;
      if pos >= |bytes| {
        return UnexpectedEof;
      }
      while bytes[pos] >= 128
        invariant i <= 5 && factor == Pow128(i) && pos < |bytes| && 0 <= res
        invariant DecodeDelta(bytes, old(pos), 0, 0) == DecodeDelta(bytes, pos, i, res)
        decreases |bytes| - pos
      {
        if i == 5 {
          return InvalidCode;
        }
        res := (res + bytes[pos] % 128 * factor) % WORD;
        i := i + 1;
        factor := 128 * factor;
        pos := pos + 1;
        if pos >= |bytes| {
          return UnexpectedEof;
        }
      }
      var ch := bytes[pos];
      if i == 5 {
        return if ch >= 8 then InvalidCode else Overwide;
      }
      r := Value((res + ch * factor) % WORD, pos + 1);
      pos := pos + 1;
    }

    /** Reads the given number of gates, numbered upwards from the given literal. */
    method ReadGates(count: nat, first: nat) returns (r: Gates)
      modifies this
      ensures r == DecodeGates(bytes, old(pos), count, first).0
      ensures r.Gates? ==> pos == DecodeGates(bytes, old(pos), count, first).1
    {
      var ands: seq<And> := [];
      var lhs := first;
      for i := 0 to count
        invariant lhs == first + 2 * i && |ands| == i
        invariant DecodeGates(bytes, old(pos), i, first) == (Gates(ands), pos)
      {
        FirstErrorStays(bytes, old(pos), i + 1, count, first);
        var d0 := ReadDelta();
        if !d0.Value? {
          return ReadError(d0);
        }
        if d0.delta > lhs {
          return InvalidDelta;
        }
        var rhs0 := lhs - d0.delta;
        var d1 := ReadDelta();
        if !d1.Value? {
          return ReadError(d1);
        }
        if d1.delta > rhs0 {
          return InvalidDelta;
        }
        ands := ands + [And(lhs, rhs0, rhs0 - d1.delta)];
        lhs := lhs + 2;
      }
      r := Gates(ands);
    }
  }

  /** The gates read from a position on, and the position after them. */
  ghost function DecodeGates(bytes: seq<Byte>, pos: nat, count: nat, first: nat): (r: (Gates, nat))
    ensures r.0.Gates? ==> |r.0.ands| == count
    ensures r.0.Gates? ==> forall k :: 0 <= k < count ==>
              && r.0.ands[k].lhs == first + 2 * k
              && r.0.ands[k].lhs >= r.0.ands[k].rhs0 >= r.0.ands[k].rhs1
  {
    if count == 0 then (Gates([]), pos)
    else
      var (before, at) := DecodeGates(bytes, pos, count - 1, first);
      if !before.Gates? then (before, at)
      else
        var lhs := first + 2 * (count - 1);
        var d0 := DecodeDelta(bytes, at, 0, 0);
        if !d0.Value? then (ReadError(d0), at)
        else if d0.delta > lhs then (InvalidDelta, at)
        else
          var d1 := DecodeDelta(bytes, d0.next, 0, 0);
          if !d1.Value? then (ReadError(d1), at)
          else if d1.delta > lhs - d0.delta then (InvalidDelta, at)
          else
            (Gates(before.ands + [And(lhs, lhs - d0.delta, lhs - d0.delta - d1.delta)]), d1.next)
  }

  lemma {:induction false} FirstErrorStays(bytes: seq<Byte>, pos: nat, j: nat, k: nat, first: nat)
    requires j <= k
    ensures !DecodeGates(bytes, pos, j, first).0.Gates? ==>
              DecodeGates(bytes, pos, k, first).0 == DecodeGates(bytes, pos, j, first).0
  {
    if j < k {
      FirstErrorStays(bytes, pos, j, k - 1, first);
    }
  }

  /** One more gate is read after those before it. */
  lemma OneMoreGate(bytes: seq<Byte>, init: seq<And>, last: And, first: nat, e: seq<Byte>, after: seq<Byte>)
    requires last.lhs == first + 2 * |init| && last.lhs < WORD && last.lhs >= last.rhs0 >= last.rhs1
    requires bytes == e + EncodeDelta(last.lhs - last.rhs0) + EncodeDelta(last.rhs0 - last.rhs1) + after
    requires DecodeGates(bytes, 0, |init|, first) == (Gates(init), |e|)
    ensures DecodeGates(bytes, 0, |init| + 1, first) ==
            (Gates(init + [last]),
             |e| + |EncodeDelta(last.lhs - last.rhs0)| + |EncodeDelta(last.rhs0 - last.rhs1)|)
  {
    hide EncodeDelta, DecodeDelta;
    var d0, d1 := last.lhs - last.rhs0, last.rhs0 - last.rhs1;
    DeltaRoundTrip(e, d0, EncodeDelta(d1) + after);
    assert bytes == e + EncodeDelta(d0) + (EncodeDelta(d1) + after);
    DeltaRoundTrip(e + EncodeDelta(d0), d1, after);
  }

  ghost predicate Countable(ands: seq<And>, first: nat) {
    forall k :: 0 <= k < |ands| ==>
      && ands[k].lhs == first + 2 * k && ands[k].lhs < WORD
      && ands[k].lhs >= ands[k].rhs0 >= ands[k].rhs1
  }

  lemma {:induction false} EncodedGatesDecode(ands: seq<And>, first: nat, after: seq<Byte>)
    requires Countable(ands, first)
    ensures DecodeGates(EncodeGates(ands) + after, 0, |ands|, first) == (Gates(ands), |EncodeGates(ands)|)
    decreases |ands|
  {
    if ands == [] {
      assert EncodeGates(ands) + after == after;
    } else {
      LastGateDecodes(ands, first, after);
    }
  }

  lemma {:induction false} LastGateDecodes(ands: seq<And>, first: nat, after: seq<Byte>)
    requires Countable(ands, first) && ands != []
    ensures DecodeGates(EncodeGates(ands) + after, 0, |ands|, first) == (Gates(ands), |EncodeGates(ands)|)
    decreases |ands|, 0
  {
    hide EncodeDelta, DecodeDelta, DecodeGates;
    var init, last := ands[..|ands| - 1], ands[|ands| - 1];
    var c0, c1 := EncodeDelta(last.lhs - last.rhs0), EncodeDelta(last.rhs0 - last.rhs1);
    var e := EncodeGates(init);
    assert EncodeGates(ands) == e + c0 + c1;
    EncodedGatesDecode(init, first, c0 + c1 + after);
    var bytes := e + c0 + c1 + after;
    assert bytes == e + (c0 + c1 + after);
    OneMoreGate(bytes, init, last, first, e, after);
    assert ands == init + [last];
  }

  /** Reading the written gates of a graph in normal form gives the same gates, and stops where they end. */
  lemma GatesRoundTrip(aig: Aig, after: seq<Byte>)
    requires Ordered(aig) && Var2Lit(LastVar(aig)) < WORD
    ensures DecodeGates(EncodeGates(aig.ands) + after, 0, |aig.ands|, Var2Lit(FirstAnd(aig)))
            == (Gates(aig.ands), |EncodeGates(aig.ands)|)
  {
    EncodedGatesDecode(aig.ands, Var2Lit(FirstAnd(aig)), after);
  }
}
