/**
 * The picker's colour code: an object id becomes the flat colour `color: id`
 * of its substitute material, i.e. red = bits 16-23, green = bits 8-15 and
 * blue = bits 0-7, and the byte triple read back is decoded as
 * `(r << 16) + (g << 8) + b`.
 */
module ColorId {

  type Byte = b: int | 0 <= b < 256

  /** One pixel of the 8-bit colour attachment (alpha is ignored). */
  datatype Rgb = Rgb(r: Byte, g: Byte, b: Byte)

  /** Number of distinct ids three channels of 8 bits can carry. */
  const IdSpace: nat := 0x100_0000

  /** `new THREE.Color(id)`: the three 8-bit channels of the integer, higher bits dropped. */
  function Encode(id: nat): Rgb {
    Rgb((id / 0x1_0000) % 256, (id / 0x100) % 256, id % 256)
  }

  /** `(buffer[0] << 16) + (buffer[1] << 8) + buffer[2]` */
  function Decode(c: Rgb): (id: nat)
    ensures id < IdSpace
  {
    c.r * 0x1_0000 + c.g * 0x100 + c.b
  }

  /** Decoding an encoded id gives back the id modulo 2^24. */
  lemma DecodeEncode(id: nat)
    ensures Decode(Encode(id)) == id % IdSpace
  {
    var q := id / 0x1_0000;
    var m := id % 0x1_0000;
    assert id == q * 0x1_0000 + m;
    assert (id / 0x100) % 256 == m / 0x100 by {
      assert id / 0x100 == q * 0x100 + m / 0x100;
    }
    assert id % 256 == m % 256 by {
      assert id == (q * 0x100 + m / 0x100) * 256 + m % 256;
    }
    assert id % IdSpace == (q % 256) * 0x1_0000 + m by {
      assert id == (q / 256) * IdSpace + ((q % 256) * 0x1_0000 + m);
    }
  }

  /** Every id below 2^24 survives the round trip through the colour attachment. */
  lemma DecodeEncodeRoundTrip(id: nat)
    requires id < IdSpace
    ensures Decode(Encode(id)) == id
  {
    DecodeEncode(id);
  }

  /** Every byte triple is the code of exactly the id it decodes to. */
  lemma EncodeDecodeRoundTrip(c: Rgb)
    ensures Encode(Decode(c)) == c
  {
    var id := Decode(c);
    assert id / 0x1_0000 == c.r;
    assert id / 0x100 == c.r * 0x100 + c.g;
    assert (c.r * 0x100 + c.g) % 256 == c.g;
  }

  /** Adding 2^24 adds 256 to the red quotient and leaves the lower channels' quotient shifted by 2^16. */
  lemma ShiftQuotients(id: nat)
    ensures (id + IdSpace) / 0x1_0000 == id / 0x1_0000 + 256
    ensures (id + IdSpace) / 0x100 == id / 0x100 + 0x1_0000
    ensures (id + IdSpace) % 256 == id % 256
  {
  }

  /** Adding a multiple of 256 keeps the low byte. */
  lemma LowByteShift(x: nat, k: nat)
    ensures (x + 256 * k) % 256 == x % 256
  {
    var q, r := x / 256, x % 256;
    assert x + 256 * k == 256 * (q + k) + r;
  }

  /** Ids that differ by a multiple of 2^24 get the same colour. */
  lemma EncodeAliases(id: nat)
    ensures Encode(id + IdSpace) == Encode(id)
  {
    ShiftQuotients(id);
    LowByteShift(id / 0x1_0000, 1);
    LowByteShift(id / 0x100, 256);
  }
}
