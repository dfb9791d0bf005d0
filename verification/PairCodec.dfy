/** The length-prefixed codec that carries a key-value snapshot. */
module PairCodec {
  import opened ByteStrings
  import opened Wrappers

  datatype Pair = Pair(key: Bytes, val: Bytes)

  /** The record of `p`, header included, has a length that a `uint32` can hold. */
  predicate Fits(p: Pair) { |p.key| + |p.val| + 8 < TWO_32 }

  predicate AllFit(ps: seq<Pair>) { forall i | 0 <= i < |ps| :: Fits(ps[i]) }

  function Header(p: Pair): (h: Bytes)
    ensures |h| == 8
  {
    LittleEndian(Uint32(|p.key| + |p.val| + 8), 4) + LittleEndian(Uint32(|p.key|), 4)
  }

  function EncodedPair(p: Pair): (b: Bytes)
    ensures |b| == |p.key| + |p.val| + 8
  {
    Header(p) + (p.key + p.val)
  }

  function Encoded(ps: seq<Pair>): Bytes
  {
    if ps == [] then [] else Encoded(ps[..|ps| - 1]) + EncodedPair(ps[|ps| - 1])
  }

  function DecodedPair(enc: Bytes): Outcome<Pair>
  {
    if |enc| < 8 then Panic else
    var end := Uint32(8 + FromLittleEndian(enc[4..8]));
    if end < 8 || end > |enc| then Panic else Ok(Pair(enc[8..end], enc[end..]))
  }

  function Decoded(encs: Bytes): Outcome<seq<Pair>>
  {
    if encs == [] then Ok([])
    else if |encs| < 4 then Panic
    else
      var i := FromLittleEndian(encs[..4]);
      if i > |encs| then Panic else
      match DecodedPair(encs[..i])
      case Panic => Panic
      case Ok(p) =>
        match Decoded(encs[i..])
        case Panic => Panic
        case Ok(rest) => Ok([p] + rest)
  }

  /** Decoding a buffer that has `spare` behind it: Go checks a slice against the capacity,
      so the last record may reach into the spare bytes. */
  function DecodedIn(encs: Bytes, spare: Bytes): Outcome<seq<Pair>>
    decreases |encs|
  {
    if encs == [] then Ok([])
    else if |encs| < 4 then Panic
    else
      var i := FromLittleEndian(encs[..4]);
      if i > |encs| + |spare| then Panic else
      match DecodedPair((encs + spare)[..i])
      case Panic => Panic
      case Ok(p) =>
        match DecodedIn(if i < |encs| then encs[i..] else [], spare)
        case Panic => Panic
        case Ok(rest) => Ok([p] + rest)
  }

  /** `Encode` distributes over concatenation. */
  lemma {:induction false} EncodedConcat(xs: seq<Pair>, ys: seq<Pair>)
    ensures Encoded(xs + ys) == Encoded(xs) + Encoded(ys)
  {
    hide EncodedPair;
    if ys == [] {
      assert xs + ys == xs;
    } else {
      var init, e := ys[..|ys| - 1], EncodedPair(ys[|ys| - 1]);
      assert (xs + ys)[..|xs + ys| - 1] == xs + init;
      EncodedConcat(xs, init);
      assert Encoded(xs + ys) == (Encoded(xs) + Encoded(init)) + e;
    }
  }

  lemma EncodedCons(p: Pair, ps: seq<Pair>)
    ensures Encoded([p] + ps) == EncodedPair(p) + Encoded(ps)
  {
    EncodedConcat([p], ps);
    assert Encoded([p]) == Encoded([]) + EncodedPair(p);
  }

  /** The header holds the two lengths when they fit, and nothing else holds them. */
  lemma HeaderWord(x: nat, w: Bytes)
    requires |w| == 4
    ensures FromLittleEndian(w) < TWO_32
    ensures x < TWO_32 ==> (LittleEndian(Uint32(x), 4) == w <==> FromLittleEndian(w) == x)
  {
    WordSizes();
    if x < TWO_32 {
      LittleEndianOnly(x, w);
    }
  }

  lemma HeaderFields(p: Pair, h: Bytes)
    requires Fits(p) && |h| == 8
    ensures h == Header(p) <==>
            FromLittleEndian(h[..4]) == |p.key| + |p.val| + 8 && FromLittleEndian(h[4..]) == |p.key|
  {
    HeaderWord(|p.key| + |p.val| + 8, h[..4]);
    HeaderWord(|p.key|, h[4..]);
    assert h == h[..4] + h[4..];
    assert Header(p)[..4] + Header(p)[4..] == Header(p);
  }

  lemma EncodedHeader(p: Pair, after: Bytes)
    requires Fits(p)
    ensures FromLittleEndian((EncodedPair(p) + after)[..4]) == |EncodedPair(p)|
    ensures FromLittleEndian(EncodedPair(p)[4..8]) == |p.key|
  {
    HeaderFields(p, Header(p));
    assert (EncodedPair(p) + after)[..4] == Header(p)[..4];
    assert EncodedPair(p)[4..8] == Header(p)[4..];
  }

  lemma DecodedFields(enc: Bytes)
    requires |enc| >= 8
    ensures var k := FromLittleEndian(enc[4..8]);
            && (DecodedPair(enc).Ok? ==> 8 + k <= |enc|)
            && (8 + k <= |enc| < TWO_32 ==> DecodedPair(enc).Ok?)
            && (8 + k <= |enc| && DecodedPair(enc).Ok? ==> DecodedPair(enc).value == Pair(enc[8..8 + k], enc[8 + k..]))
  {
    HeaderWord(0, enc[4..8]);
  }

  lemma PairRoundTrip(p: Pair)
    requires Fits(p)
    ensures DecodedPair(EncodedPair(p)) == Ok(p)
  {
    EncodedHeader(p, []);
    var b := EncodedPair(p);
    DecodedFields(b);
    assert b[8..8 + |p.key|] == p.key;
    assert b[8 + |p.key|..] == p.val;
  }

  /** The layout of a record: its whole length and the key's in four little-endian bytes
      each, then the key, then the value. */
  lemma RecordLayout(p: Pair)
    requires Fits(p)
    ensures var b := EncodedPair(p);
            && b[..4] == LittleEndian(8 + |p.key| + |p.val|, 4)
            && b[4..8] == LittleEndian(|p.key|, 4)
            && b[8..8 + |p.key|] == p.key
            && b[8 + |p.key|..] == p.val
  {
    assert EncodedPair(p)[..4] == Header(p)[..4] && EncodedPair(p)[4..8] == Header(p)[4..];
  }

  lemma {:induction false} DecodeEncode(ps: seq<Pair>)
    requires AllFit(ps)
    ensures Decoded(Encoded(ps)) == Ok(ps)
  {
    if ps != [] {
      var p, rest := ps[0], ps[1..];
      assert ps == [p] + rest;
      EncodedCons(p, rest);
      PairRoundTrip(p);
      EncodedHeader(p, Encoded(rest));
      DecodeEncode(rest);
      var b := Encoded(ps);
      assert b[..|EncodedPair(p)|] == EncodedPair(p);
      assert b[|EncodedPair(p)|..] == Encoded(rest);
    }
  }

  lemma PairDecodeInverse(enc: Bytes)
    requires DecodedPair(enc).Ok? && |enc| == FromLittleEndian(enc[..4])
    ensures Fits(DecodedPair(enc).value) && EncodedPair(DecodedPair(enc).value) == enc
  {
    DecodedFields(enc);
    HeaderWord(0, enc[..4]);
    var p := DecodedPair(enc).value;
    assert enc[..8][..4] == enc[..4] && enc[..8][4..] == enc[4..8];
    HeaderFields(p, enc[..8]);
    assert p.key + p.val == enc[8..];
  }

  lemma DecodedCons(b: Bytes)
    requires b != [] && Decoded(b).Ok?
    ensures 4 <= |b| && 8 <= FromLittleEndian(b[..4]) <= |b|
    ensures var i := FromLittleEndian(b[..4]);
            && DecodedPair(b[..i]).Ok?
            && Decoded(b[i..]).Ok?
            && Decoded(b).value == [DecodedPair(b[..i]).value] + Decoded(b[i..]).value
  {
  }

  /** Whatever `Decode` accepts, `Encode` restores byte for byte. */
  lemma {:induction false} EncodeDecode(b: Bytes)
    requires Decoded(b).Ok?
    ensures AllFit(Decoded(b).value) && Encoded(Decoded(b).value) == b
    decreases |b|
  {
    if b != [] {
      DecodedCons(b);
      var i := FromLittleEndian(b[..4]);
      var head, tail := b[..i], b[i..];
      assert b == head + tail;
      assert head[..4] == b[..4];
      PairDecodeInverse(head);
      EncodeDecode(tail);
      EncodedCons(DecodedPair(head).value, Decoded(tail).value);
    }
  }

  /** The codec loses nothing exactly when every record length fits in 32 bits. */
  lemma RoundTripExactly(ps: seq<Pair>)
    ensures Decoded(Encoded(ps)) == Ok(ps) <==> AllFit(ps)
  {
    if AllFit(ps) {
      DecodeEncode(ps);
    } else if Decoded(Encoded(ps)) == Ok(ps) {
      EncodeDecode(Encoded(ps));
    }
  }

  /** `Decode` runs without a panic exactly on the images of `Encode`. */
  lemma DecodesExactlyEncodings(b: Bytes)
    ensures Decoded(b).Ok? <==> exists ps :: AllFit(ps) && Encoded(ps) == b
  {
    if Decoded(b).Ok? {
      EncodeDecode(b);
    }
    if ps :| AllFit(ps) && Encoded(ps) == b {
      DecodeEncode(ps);
    }
  }

  lemma {:induction false} NothingSpare(encs: Bytes)
    ensures DecodedIn(encs, []) == Decoded(encs)
    decreases |encs|
  {
    if |encs| >= 4 && FromLittleEndian(encs[..4]) <= |encs| && DecodedPair(encs[..FromLittleEndian(encs[..4])]).Ok? {
      var i := FromLittleEndian(encs[..4]);
      assert encs + [] == encs;
      assert (if i < |encs| then encs[i..] else []) == encs[i..];
      NothingSpare(encs[i..]);
    } else {
      assert encs + [] == encs;
    }
  }

  /** `encs` and the first `k` spare bytes are the encoding of `ps`, and the header of the
      record that reaches into the spare bytes starts with its length before them. */
  predicate Spills(encs: Bytes, spare: Bytes, ps: seq<Pair>, k: nat)
  {
    && k <= |spare| && Encoded(ps) == encs + spare[..k]
    && (k > 0 ==> ps != [] && k + 4 <= |EncodedPair(ps[|ps| - 1])|)
  }

  lemma SpillsCons(encs: Bytes, spare: Bytes, p: Pair, rest: seq<Pair>, k: nat)
    requires |EncodedPair(p)| < |encs| && EncodedPair(p) == encs[..|EncodedPair(p)|]
    ensures Spills(encs, spare, [p] + rest, k) <==> Spills(encs[|EncodedPair(p)|..], spare, rest, k)
  {
    hide EncodedPair;
    var e := EncodedPair(p);
    EncodedCons(p, rest);
    assert encs == e + encs[|e|..];
    if k <= |spare| {
      assert encs + spare[..k] == e + (encs[|e|..] + spare[..k]);
      assert Encoded([p] + rest)[|e|..] == Encoded(rest) && (encs + spare[..k])[|e|..] == encs[|e|..] + spare[..k];
    }
    if rest == [] && k > 0 && k <= |spare| {
      assert |Encoded([p] + rest)| == |e| && |encs + spare[..k]| > |e|;
    }
  }

  lemma DecodedInCons(encs: Bytes, spare: Bytes)
    requires encs != [] && DecodedIn(encs, spare).Ok?
    ensures 4 <= |encs| && 8 <= FromLittleEndian(encs[..4]) <= |encs| + |spare|
    ensures var i := FromLittleEndian(encs[..4]);
            var tail := if i < |encs| then encs[i..] else [];
            && DecodedPair((encs + spare)[..i]).Ok?
            && DecodedIn(tail, spare).Ok?
            && DecodedIn(encs, spare).value == [DecodedPair((encs + spare)[..i]).value] + DecodedIn(tail, spare).value
  {
  }

  lemma NothingDecoded(spare: Bytes)
    ensures DecodedIn([], spare) == Ok([]) && Encoded([]) == []
  {
  }

  /** Whatever is accepted is an encoding that may end in the spare bytes. */
  lemma {:induction false} AcceptedSpills(encs: Bytes, spare: Bytes) returns (k: nat)
    requires DecodedIn(encs, spare).Ok?
    ensures AllFit(DecodedIn(encs, spare).value) && Spills(encs, spare, DecodedIn(encs, spare).value, k)
    decreases |encs|
  {
    hide DecodedIn, DecodedPair, EncodedPair;
    k := 0;
    if encs == [] {
      assert DecodedIn([], spare) == Ok([]) by { NothingDecoded(spare); }
    } else {
      DecodedInCons(encs, spare);
      var i := FromLittleEndian(encs[..4]);
      var head := (encs + spare)[..i];
      var p := DecodedPair(head).value;
      assert head[..4] == encs[..4];
      PairDecodeInverse(head);
      if i < |encs| {
        k := AcceptedSpills(encs[i..], spare);
        assert head == encs[..i];
        SpillsCons(encs, spare, p, DecodedIn(encs[i..], spare).value, k);
      } else {
        k := i - |encs|;
        NothingDecoded(spare);
        EncodedCons(p, []);
        assert [p] + [] == [p] && head == encs + spare[..k] && Encoded([p]) == head;
      }
    }
  }

  lemma HeadDecoded(encs: Bytes, spare: Bytes, p: Pair, rest: seq<Pair>, k: nat)
    requires Fits(p) && Spills(encs, spare, [p] + rest, k)
    requires rest == [] || |EncodedPair(p)| < |encs|
    ensures |encs| >= 4 && FromLittleEndian(encs[..4]) == |EncodedPair(p)| <= |encs| + |spare|
    ensures (encs + spare)[..|EncodedPair(p)|] == EncodedPair(p)
  {
    hide EncodedPair;
    var e := EncodedPair(p);
    EncodedCons(p, rest);
    EncodedHeader(p, Encoded(rest));
    assert (encs + spare)[..|encs| + k] == encs + spare[..k];
    assert (encs + spare)[..|e|] == (encs + spare[..k])[..|e|];
    assert encs[..4] == (encs + spare[..k])[..4];
  }

  lemma SpillsNothing(encs: Bytes, spare: Bytes, k: nat)
    requires Spills(encs, spare, [], k)
    ensures encs == []
  {
  }

  lemma SpillsHead(encs: Bytes, spare: Bytes, p: Pair, rest: seq<Pair>, k: nat)
    requires Spills(encs, spare, [p] + rest, k)
    ensures encs != []
    ensures if rest == [] then |EncodedPair(p)| >= |encs| else |EncodedPair(p)| < |encs|
  {
    hide EncodedPair;
    EncodedCons(p, rest);
    assert |Encoded([p] + rest)| == |EncodedPair(p)| + |Encoded(rest)| == |encs| + k;
    if rest != [] {
      assert ([p] + rest)[|rest|] == rest[|rest| - 1];
      assert |Encoded(rest)| >= |EncodedPair(rest[|rest| - 1])| >= 8;
    } else {
      assert Encoded([]) == [] && ([p] + rest)[0] == p;
    }
  }

  lemma {:induction false} SpillsAccepted(encs: Bytes, spare: Bytes, ps: seq<Pair>, k: nat)
    requires AllFit(ps) && Spills(encs, spare, ps, k)
    ensures DecodedIn(encs, spare) == Ok(ps)
    decreases |ps|
  {
    hide EncodedPair, DecodedPair, Spills;
    if ps == [] {
      SpillsNothing(encs, spare, k);
    } else {
      var p, rest := ps[0], ps[1..];
      assert ps == [p] + rest;
      SpillsHead(encs, spare, p, rest, k);
      HeadDecoded(encs, spare, p, rest, k);
      PairRoundTrip(p);
      var e := EncodedPair(p);
      if rest != [] {
        assert (encs + spare)[..|e|] == encs[..|e|];
        SpillsCons(encs, spare, p, rest, k);
        SpillsAccepted(encs[|e|..], spare, rest, k);
      }
    }
  }

  /** `Decode` gives `ps` exactly when the buffer, with some of its spare capacity if its
      last record is cut short after its length, is the encoding of `ps`. */
  lemma DecodesExactly(encs: Bytes, spare: Bytes, ps: seq<Pair>)
    ensures DecodedIn(encs, spare) == Ok(ps) <==> AllFit(ps) && exists k :: Spills(encs, spare, ps, k)
  {
    hide Spills, DecodedIn;
    if DecodedIn(encs, spare) == Ok(ps) {
      var k := AcceptedSpills(encs, spare);
    }
    if k: nat :| AllFit(ps) && Spills(encs, spare, ps, k) {
      SpillsAccepted(encs, spare, ps, k);
    }
  }

  method EncodeOne(p: Pair) returns (buf: Bytes)
    ensures buf == EncodedPair(p)
  {
    var ksize, vsize := |p.key|, |p.val|;
    buf := LittleEndian(Uint32(ksize + vsize + 8), 4);
    buf := buf + LittleEndian(Uint32(ksize), 4);
    assert buf == Header(p);
    buf := buf + p.key;
    buf := buf + p.val;
    assert buf == Header(p) + (p.key + p.val);
  }

  method Encode(pairs: seq<Pair>) returns (buf: Bytes)
    ensures buf == Encoded(pairs)
  {
    buf := [];
    for i := 0 to |pairs|
      invariant buf == Encoded(pairs[..i])
    {
      var b := EncodeOne(pairs[i]);
      buf := buf + b;
      assert pairs[..i + 1][..i] == pairs[..i];
    }
    assert pairs[..|pairs|] == pairs;
  }

  method DecodeOne(enc: Bytes) returns (r: Outcome<Pair>)
    ensures r == DecodedPair(enc)
  {
    if |enc| < 8 {
      return Panic;
    }
    var ksize := FromLittleEndian(enc[4..8]);
    var end := Uint32(8 + ksize);
    if end < 8 || end > |enc| {
      return Panic;
    }
    return Ok(Pair(enc[8..end], enc[end..]));
  }

  /** `spare` is the spare capacity behind the buffer. */
  method Decode(encs: Bytes, spare: Bytes) returns (r: Outcome<seq<Pair>>)
    ensures r == DecodedIn(encs, spare)
  {
    var pairs: seq<Pair> := [];
    var offset := 0;
    assert encs[0..] == encs;
    assert forall rest: seq<Pair> :: [] + rest == rest;
    while offset < |encs|
      invariant 0 <= offset <= |encs| + |spare|
      invariant DecodedIn(encs, spare) == (match DecodedIn(if offset < |encs| then encs[offset..] else [], spare)
                                           case Panic => Panic
                                           case Ok(rest) => Ok(pairs + rest))
      decreases |encs| - offset
    {
      var tail := encs[offset..];
      if |tail| < 4 {
        return Panic;
      }
      var i := FromLittleEndian(tail[..4]);
      if i > |tail| + |spare| {
        return Panic;
      }
      var p := DecodeOne((tail + spare)[..i]);
      if p.Panic? {
        return Panic;
      }
      assert forall rest :: (pairs + [p.value]) + rest == pairs + ([p.value] + rest);
      assert i < |tail| ==> tail[i..] == encs[offset + i..];
      pairs := pairs + [p.value];
      offset := offset + i;
    }
    assert pairs + [] == pairs;
    return Ok(pairs);
  }
}
