/**
  What the tokens tallied by deflate mean: section 3.2.5 of RFC 1951.  A literal appends a
  byte; a (length, distance) pair copies that many bytes from that far back, one at a time, so
  that a copy may run into its own output.
 */
module Lz77 {
  import opened Words

  const MIN_MATCH: nat := 3
  const MAX_MATCH: nat := 258

  datatype Token = Literal(byte: Byte) | Match(length: nat, distance: nat)

  function Copy(out: seq<Byte>, length: nat, distance: nat): seq<Byte>
    requires 1 <= distance <= |out|
    decreases length
  {
    if length == 0 then out else Copy(out + [out[|out| - distance]], length - 1, distance)
  }

  /** The output after one more token; a distance that reaches too far is ignored. */
  function Append(out: seq<Byte>, t: Token): seq<Byte> {
    match t
    case Literal(b) => out + [b]
    case Match(length, distance) => if 1 <= distance <= |out| then Copy(out, length, distance) else out
  }

  function Expand(ts: seq<Token>): seq<Byte> {
    if ts == [] then [] else Append(Expand(ts[..|ts| - 1]), ts[|ts| - 1])
  }

  /** Every pair is within the format's limits and the output it follows. */
  predicate Legal(ts: seq<Token>, maxDistance: int) {
    forall i :: 0 <= i < |ts| && ts[i].Match? ==>
      && MIN_MATCH <= ts[i].length <= MAX_MATCH
      && 1 <= ts[i].distance <= maxDistance && ts[i].distance <= |Expand(ts[..i])|
  }

  /** `input` repeats at `at` what stands `distance` before it, for `length` bytes. */
  predicate Repeats(input: seq<Byte>, at: nat, distance: nat, length: nat) {
    && 1 <= distance <= at && at + length <= |input|
    && forall k :: at <= k < at + length ==> input[k] == input[k - distance]
  }

  lemma {:induction false} CopyRepeats(input: seq<Byte>, at: nat, distance: nat, length: nat)
    requires Repeats(input, at, distance, length)
    ensures Copy(input[..at], length, distance) == input[..at + length]
    decreases length
  {
    if length > 0 {
      assert input[at] == input[at - distance];
      assert input[..at] + [input[..at][at - distance]] == input[..at + 1];
      CopyRepeats(input, at + 1, distance, length - 1);
    }
  }

  lemma {:induction false} ExpandSnoc(ts: seq<Token>, t: Token)
    ensures Expand(ts + [t]) == Append(Expand(ts), t)
  {
    assert (ts + [t])[..|ts|] == ts;
  }

  /** The token says what the input has from `at` on. */
  predicate Describes(t: Token, input: seq<Byte>, at: nat) {
    match t
    case Literal(b) => at < |input| && b == input[at]
    case Match(length, distance) => Repeats(input, at, distance, length)
  }

  function Length(t: Token): nat {
    if t.Literal? then 1 else t.length
  }

  /** A token that describes the next stretch of the input extends a faithful expansion. */
  lemma {:induction false} ExpandToken(ts: seq<Token>, t: Token, input: seq<Byte>, at: nat)
    requires at <= |input| && Expand(ts) == input[..at] && Describes(t, input, at)
    ensures at + Length(t) <= |input| && Expand(ts + [t]) == input[..at + Length(t)]
  {
    ExpandSnoc(ts, t);
    if t.Literal? {
      assert input[..at] + [input[at]] == input[..at + 1];
    } else {
      CopyRepeats(input, at, t.distance, t.length);
    }
  }

  /** The same for an expansion that starts at `origin`, if the token does not reach before it. */
  lemma {:induction false} ExpandTokenFrom(ts: seq<Token>, t: Token, input: seq<Byte>, origin: nat, at: nat)
    requires origin <= at <= |input| && Expand(ts) == input[origin..at] && Describes(t, input, at)
    requires t.Match? ==> origin + t.distance <= at
    ensures at + Length(t) <= |input| && Expand(ts + [t]) == input[origin..at + Length(t)]
  {
    var rest := input[origin..];
    assert rest[..at - origin] == input[origin..at];
    if t.Match? {
      assert Repeats(rest, at - origin, t.distance, t.length);
    }
    ExpandToken(ts, t, rest, at - origin);
    assert rest[..at - origin + Length(t)] == input[origin..at + Length(t)];
  }

  /** And it keeps within the format's limits. */
  lemma {:induction false} ExpandNext(ts: seq<Token>, t: Token, input: seq<Byte>, at: nat, maxDistance: int)
    requires at <= |input| && Expand(ts) == input[..at] && Legal(ts, maxDistance)
    requires Describes(t, input, at)
    requires t.Match? ==> MIN_MATCH <= t.length <= MAX_MATCH && t.distance <= maxDistance
    ensures Legal(ts + [t], maxDistance)
    ensures at + Length(t) <= |input| && Expand(ts + [t]) == input[..at + Length(t)]
  {
    ExpandToken(ts, t, input, at);
    forall i | 0 <= i < |ts|
      ensures (ts + [t])[..i] == ts[..i]
    {
    }
    assert (ts + [t])[..|ts|] == ts;
  }
}
