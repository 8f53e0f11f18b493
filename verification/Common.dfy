/** Values shared by every part of the model: bytes, optional values, results,
    and the snapshot records of snapshot.rs. */
module Common {

  type Byte = bv8

  type Bytes = seq<Byte>

  /** The byte of value `x`, counted up to; nothing is said of other numbers. */
  function ToByte(x: int): Byte {
    if x <= 0 then 0 else ToByte(x - 1) + 1
  }

  lemma {:induction false} ByteRoundTrip(x: int)
    requires 0 <= x < 256
    ensures ToByte(x) as int == x
  {
    if x > 0 {
      ByteRoundTrip(x - 1);
      NextByte(ToByte(x - 1));
    }
  }

  lemma NextByte(b: Byte)
    requires b as int < 255
    ensures (b + 1) as int == b as int + 1
  {}

  lemma ByteValue(b: Byte, c: Byte)
    requires b as int == c as int
    ensures b == c
  {}

  /** A checksum function, standing for SHA-256 printed in hexadecimal. */
  type Digest = Bytes -> string

  datatype Option<+T> = None | Some(value: T)

  datatype Result<+T, +E> = Ok(value: T) | Err(error: E)

  function Min(a: int, b: int): int {
    if a <= b then a else b
  }

  function Pow2(k: nat): (p: nat)
    ensures p >= 1
  {
    if k == 0 then 1 else 2 * Pow2(k - 1)
  }

  lemma AppendAssociates<T>(a: seq<T>, b: seq<T>, c: seq<T>)
    ensures (a + b) + c == a + (b + c)
  {}

  function Concat<T>(parts: seq<seq<T>>): seq<T> {
    if parts == [] then [] else parts[0] + Concat(parts[1..])
  }

  lemma ConcatCons<T>(part: seq<T>, parts: seq<seq<T>>)
    ensures Concat([part] + parts) == part + Concat(parts)
  {
    assert ([part] + parts)[1..] == parts;
  }

  lemma {:induction false} ConcatSnoc<T>(parts: seq<seq<T>>, part: seq<T>)
    ensures Concat(parts + [part]) == Concat(parts) + part
  {
    if parts == [] {
      assert parts + [part] == [part] + parts;
      ConcatCons(part, parts);
      assert part + [] == [] + part;
    } else {
      assert parts + [part] == [parts[0]] + (parts[1..] + [part]);
      ConcatCons(parts[0], parts[1..] + [part]);
      ConcatSnoc(parts[1..], part);
      AppendAssociates(parts[0], Concat(parts[1..]), part);
    }
  }

  lemma Reassociate<T>(front: seq<T>, x: T, back: seq<T>)
    ensures front + ([x] + back) == (front + [x]) + back
  {}

  /** No two byte strings of `universe` share a checksum. */
  ghost predicate CollisionFree(sha: Digest, universe: set<Bytes>) {
    forall x, y :: x in universe && y in universe && sha(x) == sha(y) ==> x == y
  }
}
