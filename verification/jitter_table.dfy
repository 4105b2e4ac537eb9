/**
 The jitter table of styleblit(): a fixed 256 x 256 RGBA byte table whose
 every entry is redrawn from rand() when the table is regenerated. Its size
 is a constant of the stylizer and never depends on the target resolution.
 */
module JitterTable {

  const Width := 256
  const Height := 256
  /** RGBA: four bytes per texel. */
  const Channels := 4
  const TableSize := Width * Height * Channels

  /** RAND_MAX of the C library (glibc's value). */
  const RandMax := 0x7fff_ffff

  /** A table as the stylizer keeps it: exactly TableSize bytes. */
  predicate IsByteTable(t: seq<int>) {
    && |t| == TableSize
    && forall i :: 0 <= i < |t| ==> 0 <= t[i] <= 255
  }

  /** One regeneration consumes exactly TableSize values of rand(). */
  predicate ValidDraws(draws: seq<int>) {
    && |draws| == TableSize
    && forall i :: 0 <= i < |draws| ==> 0 <= draws[i] <= RandMax
  }

  /** The byte that `(float(r) / float(RAND_MAX)) * 255.0f` is meant to
      give once stored into an unsigned char: the body computes the exact
      rational `r * 255 / RAND_MAX` truncated towards zero, not the
      single-precision expression, from which it can differ by one on some draws
      (README, "Left out"). */
  function ToByte(r: int): (b: int)
    requires 0 <= r <= RandMax
    ensures 0 <= b <= 255
    ensures b * RandMax <= r * 255 < (b + 1) * RandMax
  {
    r * 255 / RandMax
  }

  /** The conversion never maps a larger draw to a smaller byte, and spans
      the whole byte range. */
  lemma ToByteMonotone(r: int, r': int)
    requires 0 <= r <= r' <= RandMax
    ensures ToByte(r) <= ToByte(r')
    ensures ToByte(0) == 0 && ToByte(RandMax) == 255
  {
  }

  /** The table after a regeneration: entry i is derived from the i-th draw. */
  function Regenerate(draws: seq<int>): (t: seq<int>)
    requires ValidDraws(draws)
    ensures IsByteTable(t)
    ensures forall i :: 0 <= i < TableSize ==> t[i] == ToByte(draws[i])
  {
    seq(TableSize, i requires 0 <= i < TableSize => ToByte(draws[i]))
  }

  /** The regeneration loop `for (i = 0; i < size; i++) data[i] = ...`. */
  method FillTable(draws: seq<int>) returns (t: seq<int>)
    requires ValidDraws(draws)
    ensures IsByteTable(t)
    ensures forall i :: 0 <= i < TableSize ==> t[i] == ToByte(draws[i])
    ensures t == Regenerate(draws)
  {
    t := [];
    var i := 0;
    while i < TableSize
      invariant 0 <= i <= TableSize
      invariant |t| == i
      invariant forall j :: 0 <= j < i ==> t[j] == ToByte(draws[j])
    {
      t := t + [ToByte(draws[i])];
      i := i + 1;
    }
  }
}
