/**
 * Embeddings: the local fallback `deterministicEmbedding`, which turns a
 * stream of hash digests into fixed-length 16-bit values, and `embedText`,
 * which truncates its input and prefers the provider's vector when there is one.
 * The hash is a parameter: any function from strings to non-empty byte strings.
 */
module Embedding {
  import opened Util
  import opened Text

  newtype Byte = b: int | 0 <= b < 256

  const VectorDimensions: nat := 1024
  const EmbedMaxChars: nat := 16000

  /** `(hi << 8) | lo` read as a signed 16-bit number. */
  function Signed16(hi: Byte, lo: Byte): (v: int)
    ensures -0x8000 <= v <= 0x7fff
  {
    var val := hi as int * 0x100 + lo as int;
    if val > 0x7fff then val - 0x10000 else val
  }

  /** The k-th value of a digest: bytes 2k and 2k+1, a missing second byte read as 0. */
  function PairValue(h: seq<Byte>, k: nat): int
    requires 2 * k < |h|
  {
    Signed16(h[2 * k], if 2 * k + 1 < |h| then h[2 * k + 1] else 0)
  }

  /** All values one digest yields, one per pair of bytes. */
  function PairsOf(h: seq<Byte>): (r: seq<int>)
    ensures |r| == (|h| + 1) / 2
  {
    seq((|h| + 1) / 2, k requires 0 <= k < (|h| + 1) / 2 => PairValue(h, k))
  }

  /** Every hash value has at least one byte, so each round yields a value. */
  ghost predicate NonEmptyDigests(hash: string -> seq<Byte>) {
    forall s :: |hash(s)| > 0
  }

  /**
   * The values still to come once `filled` slots are full and the next
   * digest is taken of `seed`: this round's values, cut to what is missing,
   * then those of the reseeded stream `seed + '*' + filled`.
   */
  function EmbedFrom(seed: string, filled: nat, dims: nat, hash: string -> seq<Byte>): seq<int>
    requires NonEmptyDigests(hash)
    decreases dims - filled
  {
    if filled >= dims then []
    else
      var vals := Take(PairsOf(hash(seed)), dims - filled);
      assert |hash(seed)| > 0;
      var next := filled + |vals|;
      vals + EmbedFrom(seed + "*" + NatToString(next), next, dims, hash)
  }

  /** The signed 16-bit values behind `deterministicEmbedding(text, dims)`. */
  function EmbedValues(text: string, dims: nat, hash: string -> seq<Byte>): seq<int>
    requires NonEmptyDigests(hash)
  {
    EmbedFrom(text, 0, dims, hash)
  }

  /** `signed / 0x7fff`, as the source divides. */
  function NormalizeAsWritten(v: int): real {
    v as real / 0x7fff as real
  }

  /** The division clamped to -1 at the one value, -0x8000, that it would take below -1. */
  function Normalize(v: int): (r: real)
    requires -0x8000 <= v <= 0x7fff
    ensures -1.0 <= r <= 1.0
    ensures v > -0x8000 ==> r == NormalizeAsWritten(v)
  {
    if v < -0x7fff then -1.0 else v as real / 0x7fff as real
  }

  function Normalized(vals: seq<int>): (r: seq<real>)
    requires forall k :: 0 <= k < |vals| ==> -0x8000 <= vals[k] <= 0x7fff
    ensures |r| == |vals|
  {
    seq(|vals|, k requires 0 <= k < |vals| => Normalize(vals[k]))
  }

  // -------------------------------------------------------- the stream

  /** The values from `filled` on fill exactly the missing slots and are all 16-bit. */
  lemma {:induction false} EmbedFromShape(seed: string, filled: nat, dims: nat, hash: string -> seq<Byte>)
    requires NonEmptyDigests(hash)
    ensures var r := EmbedFrom(seed, filled, dims, hash);
      |r| == (if filled >= dims then 0 else dims - filled) &&
      forall k :: 0 <= k < |r| ==> -0x8000 <= r[k] <= 0x7fff
    decreases dims - filled
  {
    if filled < dims {
      assert |hash(seed)| > 0;
      var vals := Take(PairsOf(hash(seed)), dims - filled);
      var next := filled + |vals|;
      var rest := EmbedFrom(seed + "*" + NatToString(next), next, dims, hash);
      EmbedFromShape(seed + "*" + NatToString(next), next, dims, hash);
      var r := vals + rest;
      forall k | 0 <= k < |r| ensures -0x8000 <= r[k] <= 0x7fff {
        if k < |vals| {
          assert r[k] == PairsOf(hash(seed))[k];
        } else {
          assert r[k] == rest[k - |vals|];
        }
      }
    }
  }

  /**
   * `deterministicEmbedding` yields exactly `dims` values, each a signed
   * 16-bit number; the first ones are the byte pairs of the digest of the
   * text itself, in order.
   */
  lemma EmbedValuesShape(text: string, dims: nat, hash: string -> seq<Byte>)
    requires NonEmptyDigests(hash)
    ensures var r := EmbedValues(text, dims, hash);
      |r| == dims && (forall k :: 0 <= k < dims ==> -0x8000 <= r[k] <= 0x7fff) &&
      forall k :: 0 <= k < Min(dims, (|hash(text)| + 1) / 2) ==> r[k] == PairValue(hash(text), k)
  {
    EmbedFromShape(text, 0, dims, hash);
    if dims > 0 {
      assert |hash(text)| > 0;
      var vals := Take(PairsOf(hash(text)), dims);
      assert EmbedValues(text, dims, hash)[..|vals|] == vals;
    }
  }

  /** After the first round the stream goes on with the digest of `text + "*" + n`, n the values so far. */
  lemma SecondRoundReseeds(text: string, dims: nat, hash: string -> seq<Byte>)
    requires NonEmptyDigests(hash)
    ensures var n := (|hash(text)| + 1) / 2;
      n < dims ==>
        EmbedValues(text, dims, hash) == PairsOf(hash(text)) + EmbedFrom(text + "*" + NatToString(n), n, dims, hash)
  {
  }

  // ------------------------------------------------------------- the loop

  /** `deterministicEmbedding(text, dims)`: fills `out` through `filled`, reseeding after each digest. */
  method DeterministicEmbedding(text: string, dims: nat, hash: string -> seq<Byte>) returns (out: array<real>)
    requires NonEmptyDigests(hash)
    ensures fresh(out) && out.Length == dims
    ensures EmbedValuesInRange(text, dims, hash) && out[..] == Normalized(EmbedValues(text, dims, hash))
  {
    EmbedValuesShape(text, dims, hash);
    out := new real[dims];
    var seed := text;
    var filled: nat := 0;
    ghost var produced: seq<int> := [];
    while filled < dims
      invariant Filled(out, filled, produced)
      invariant produced + EmbedFrom(seed, filled, dims, hash) == EmbedValues(text, dims, hash)
      decreases dims - filled
    {
      var h := hash(seed);
      assert |h| > 0;
      ghost var before := produced;
      ghost var start := filled;
      filled, produced := FillRound(out, h, filled, produced);
      RoundDone(seed, start, dims, hash, before, produced, filled);
      seed := seed + "*" + NatToString(filled);
    }
    assert out[..] == out[..filled];
  }

  /** The 16-bit range of every value, so that Normalized applies. */
  ghost predicate InRange16(vals: seq<int>) {
    forall k :: 0 <= k < |vals| ==> -0x8000 <= vals[k] <= 0x7fff
  }

  /** The first `filled` slots of `out` hold the normalised `produced` values. */
  ghost predicate Filled(out: array<real>, filled: nat, produced: seq<int>)
    reads out
  {
    filled <= out.Length && |produced| == filled && InRange16(produced) && out[..filled] == Normalized(produced)
  }

  ghost predicate EmbedValuesInRange(text: string, dims: nat, hash: string -> seq<Byte>)
    requires NonEmptyDigests(hash)
  {
    InRange16(EmbedValues(text, dims, hash))
  }

  /** The inner loop: the values of one digest, two bytes each, until the digest or `out` runs out. */
  method FillRound(out: array<real>, h: seq<Byte>, filled: nat, ghost produced: seq<int>)
    returns (filled': nat, ghost produced': seq<int>)
    modifies out
    requires |h| > 0 && filled < out.Length && Filled(out, filled, produced)
    ensures filled < filled' <= out.Length && filled' - filled <= |PairsOf(h)|
    ensures 2 * (filled' - filled) >= |h| || filled' == out.Length
    ensures produced' == produced + PairsOf(h)[..filled' - filled]
    ensures Filled(out, filled', produced')
  {
    filled', produced' := filled, produced;
    var i := 0;
    while i < |h| && filled' < out.Length
      invariant i == 2 * (filled' - filled) && filled <= filled' <= out.Length
      invariant filled' - filled <= |PairsOf(h)|
      invariant produced' == produced + PairsOf(h)[..filled' - filled]
      invariant Filled(out, filled', produced')
      decreases |h| - i
    {
      var hi := h[i];
      var lo := if i + 1 < |h| then h[i + 1] else 0;
      var val := hi as int * 0x100 + lo as int;
      var signed := if val > 0x7fff then val - 0x10000 else val;
      assert signed == PairsOf(h)[filled' - filled];
      TakeSnoc(PairsOf(h), filled' - filled);
      Store(out, filled', signed, produced');
      produced' := produced' + [signed];
      filled' := filled' + 1;
      i := i + 2;
    }
  }

  /** `out[filled++] = signed / 0x7fff`, with the corrected division. */
  method Store(out: array<real>, filled: nat, signed: int, ghost produced: seq<int>)
    modifies out
    requires filled < out.Length && Filled(out, filled, produced) && -0x8000 <= signed <= 0x7fff
    ensures Filled(out, filled + 1, produced + [signed])
  {
    out[filled] := Normalize(signed);
    NormalizedSnoc(produced, signed);
    assert out[..filled + 1] == out[..filled] + [out[filled]];
  }

  lemma NormalizedSnoc(vals: seq<int>, v: int)
    requires InRange16(vals) && -0x8000 <= v <= 0x7fff
    ensures InRange16(vals + [v]) && Normalized(vals + [v]) == Normalized(vals) + [Normalize(v)]
  {
  }

  /** A finished round: what it produced is this round's values, and the stream goes on reseeded. */
  lemma RoundDone(seed: string, start: nat, dims: nat, hash: string -> seq<Byte>,
                  before: seq<int>, produced: seq<int>, filled: nat)
    requires NonEmptyDigests(hash) && start < dims
    requires start <= filled <= dims && filled - start <= |PairsOf(hash(seed))|
    requires 2 * (filled - start) >= |hash(seed)| || filled == dims
    requires produced == before + PairsOf(hash(seed))[..filled - start]
    ensures before + EmbedFrom(seed, start, dims, hash) ==
            produced + EmbedFrom(seed + "*" + NatToString(filled), filled, dims, hash)
  {
    var vals := Take(PairsOf(hash(seed)), dims - start);
    assert vals == PairsOf(hash(seed))[..filled - start];
    AppendAssoc(before, vals, EmbedFrom(seed + "*" + NatToString(filled), filled, dims, hash));
  }

  // ------------------------------------------------------------ embedText

  /** What the embedding provider did with the text: no client, threw, or replied with a vector or with none. */
  datatype ProviderReply = NoClient | Threw | Replied(vector: Option<seq<real>>)

  /**
   * `embedText`: the text is cut to its first 16000 characters; the
   * provider's vector, of whatever length, is returned as it is; without a
   * client, a vector, or when the call throws, the local embedding of the
   * cut text of 1024 values.
   */
  function EmbedText(text: string, provider: string -> ProviderReply, hash: string -> seq<Byte>): (r: seq<real>)
    requires NonEmptyDigests(hash)
  {
    var input := Take(text, EmbedMaxChars);
    match provider(input)
    case Replied(Some(v)) => v
    case _ =>
      EmbedValuesShape(input, VectorDimensions, hash);
      Normalized(EmbedValues(input, VectorDimensions, hash))
  }

  /**
   * The provider sees at most 16000 characters; its vector wins when it has
   * one, and otherwise the result is the 1024-value local embedding of the
   * cut text, every entry within [-1, 1].
   */
  lemma EmbedTextChoice(text: string, provider: string -> ProviderReply, hash: string -> seq<Byte>)
    requires NonEmptyDigests(hash)
    ensures var input := Take(text, EmbedMaxChars);
      |input| <= EmbedMaxChars && input == text[..|input|] &&
      (provider(input).Replied? && provider(input).vector.Some? ==>
         EmbedText(text, provider, hash) == provider(input).vector.value) &&
      (!(provider(input).Replied? && provider(input).vector.Some?) ==>
         |EmbedText(text, provider, hash)| == VectorDimensions &&
         forall k :: 0 <= k < VectorDimensions ==> -1.0 <= EmbedText(text, provider, hash)[k] <= 1.0)
  {
    var input := Take(text, EmbedMaxChars);
    EmbedValuesShape(input, VectorDimensions, hash);
  }

  // ------------------------------------------------------------ finding

  /** As written, the most negative 16-bit value normalises to below -1. */
  lemma NormalizeAsWrittenLeavesRange()
    ensures NormalizeAsWritten(Signed16(0x80, 0x00)) < -1.0
  {
    assert Signed16(0x80, 0x00) == -0x8000;
  }

  /** The digest bytes 0x80 0x00, both present, give the value -0x8000. */
  lemma PairEightyZero(h: seq<Byte>, k: nat)
    requires 2 * k + 1 < |h| && h[2 * k] == 0x80 && h[2 * k + 1] == 0x00
    ensures PairValue(h, k) == -0x8000 && NormalizeAsWritten(PairValue(h, k)) < -1.0
  {
  }
}
