/**
 * Packed row handles of the emitted store: slot, store brand and slot generation
 * in one number, `slot + brand * 2^24 + generation * 2^32`.
 */
module Handles {

  const SLOT_RANGE: nat := 16777216
  const BRAND_RANGE: nat := 256
  const GENERATION_RANGE: nat := 2097152
  const LOW_RANGE: nat := 4294967296
  const MAX_SAFE_INTEGER: nat := 9007199254740991

  datatype Parts = Parts(slot: nat, brand: nat, gen: nat) {
    predicate InRange() {
      slot < SLOT_RANGE && brand < BRAND_RANGE && gen < GENERATION_RANGE
    }
  }

  function Encode(p: Parts): nat {
    p.slot + p.brand * SLOT_RANGE + p.gen * LOW_RANGE
  }

  function Decode(h: nat): Parts {
    var gen := h / LOW_RANGE;
    var low := h - gen * LOW_RANGE;
    Parts(low % SLOT_RANGE, low / SLOT_RANGE, gen)
  }

  /** Decoding undoes encoding, and a packed handle is an exactly representable double. */
  lemma DecodeEncode(p: Parts)
    requires p.InRange()
    ensures Decode(Encode(p)) == p
    ensures Encode(p) <= MAX_SAFE_INTEGER
  {
    var low := p.slot + p.brand * SLOT_RANGE;
    assert low < LOW_RANGE;
    assert Encode(p) / LOW_RANGE == p.gen;
    assert low / SLOT_RANGE == p.brand;
  }

  /** Where the parts stand in the number: the slot lowest, then one byte of brand, the generation on top. */
  lemma Layout(p: Parts)
    requires p.InRange()
    ensures Encode(p) % 16777216 == p.slot
    ensures Encode(p) / 16777216 % 256 == p.brand
    ensures Encode(p) / 4294967296 == p.gen
  {
    DecodeEncode(p);
    var h := Encode(p);
    assert h == p.slot + 16777216 * (p.brand + 256 * p.gen);
    assert h / 16777216 == p.brand + 256 * p.gen;
  }

  lemma DecodedAs(h: nat)
    ensures Decode(h) == Parts(h % 16777216, h / 16777216 % 256, h / 4294967296)
  {
    var gen, high := h / 4294967296, h / 16777216;
    var low := h - gen * 4294967296;
    assert h == 16777216 * high + h % 16777216;
    assert high / 256 == gen;
    assert low == 16777216 * (high % 256) + h % 16777216;
  }

  /** Encoding undoes decoding: no two numbers decode to the same parts. */
  lemma EncodeDecode(h: nat)
    ensures Encode(Decode(h)) == h
    ensures Decode(h).brand < BRAND_RANGE
    ensures h <= MAX_SAFE_INTEGER ==> Decode(h).InRange()
  {
  }

  lemma EncodeInjective(p: Parts, q: Parts)
    requires p.InRange() && q.InRange()
    requires Encode(p) == Encode(q)
    ensures p == q
  {
    DecodeEncode(p);
    DecodeEncode(q);
  }
}
