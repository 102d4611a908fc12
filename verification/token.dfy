/**
 The correlation token of the completion-based echo server: the `IORequest`
 union of src/examples/echo_server.cc packs `{type : 8, uint16 fd, uint32
 client_id}` into the one 64-bit `user_data` word a ring entry carries back
 on its completion.

 The union gives the word the struct's in-memory layout. On the platforms the
 server targets this is: the type in bits 0-7, one padding byte in bits 8-15,
 the descriptor in bits 16-31 and the client id in bits 32-63. Packing is
 written here as arithmetic over that layout, with the padding byte zero.
 */
module Token {
  import opened Prelude

  datatype RequestType = Accept | Read | Write

  /** The enumerator's value, stored in the low byte. */
  function Code(k: RequestType): (c: nat)
    ensures c < 3
    ensures k == Accept <==> c == 0
    ensures k == Write <==> c == 2
  {
    match k
    case Accept => 0
    case Read => 1
    case Write => 2
  }

  /** The enumerator a stored type byte names, if any; the callback's `switch` has no case for the others. */
  function KindOf(c: int): (k: Option<RequestType>)
    ensures k.Some? <==> 0 <= c < 3
    ensures k.Some? ==> Code(k.value) == c
  {
    if c == 0 then Some(Accept)
    else if c == 1 then Some(Read)
    else if c == 2 then Some(Write)
    else None
  }

  datatype IORequest = IORequest(kind: RequestType, fd: U16, clientId: U32)

  const FdUnit: nat := 0x1_0000
  const ClientUnit: nat := 0x1_0000_0000

  /** The type byte of a word. */
  function TypeByte(w: U64): (b: Byte) { w % 0x100 }

  /** The padding byte of a word, which the struct never reads. */
  function PaddingByte(w: U64): (b: Byte) { (w / 0x100) % 0x100 }

  /** Reading `.packed` after initialising `.unpacked`. */
  function Pack(r: IORequest): (w: U64)
    ensures TypeByte(w) == Code(r.kind) && PaddingByte(w) == 0
  {
    Code(r.kind) + r.fd * FdUnit + r.clientId * ClientUnit
  }

  /** Reading `.unpacked` of a word stored in `.packed`; `None` when the type byte names no request type. */
  function Unpack(w: U64): (r: Option<IORequest>)
    ensures r.Some? <==> TypeByte(w) < 3
  {
    match KindOf(TypeByte(w))
    case None => None
    case Some(k) => Some(IORequest(k, (w / FdUnit) % 0x1_0000, w / ClientUnit))
  }

  /** Each field of a packed word sits in its own bit range, and the padding byte is zero. */
  lemma PackFields(r: IORequest)
    ensures TypeByte(Pack(r)) == Code(r.kind)
    ensures PaddingByte(Pack(r)) == 0
    ensures (Pack(r) / FdUnit) % 0x1_0000 == r.fd
    ensures Pack(r) / ClientUnit == r.clientId
  {
    var w := Pack(r);
    var low := Code(r.kind) + r.fd * FdUnit;
    assert low < ClientUnit;
    assert w == low + r.clientId * ClientUnit;
    assert w / ClientUnit == r.clientId;
    assert w / FdUnit == r.fd + r.clientId * 0x1_0000;
    assert w % 0x1_0000 == Code(r.kind);
    assert w / 0x100 == (r.fd + r.clientId * 0x1_0000) * 0x100;
  }

  /** Round trip: unpacking a packed request gives back the same three fields. */
  lemma UnpackPack(r: IORequest)
    ensures Unpack(Pack(r)) == Some(r)
  {
    PackFields(r);
  }

  /** The low half of a word: type byte, padding byte, then everything from bit 16 up. */
  lemma SplitLow(w: U64)
    ensures w == TypeByte(w) + PaddingByte(w) * 0x100 + (w / FdUnit) * FdUnit
  {
    var q := w / 0x100;
    assert w == w % 0x100 + q * 0x100;
    assert q / 0x100 == w / FdUnit;
  }

  /** The high part of a word: the descriptor field, then the client id from bit 32 up. */
  lemma SplitHigh(w: U64)
    ensures w / FdUnit == (w / FdUnit) % 0x1_0000 + (w / ClientUnit) * 0x1_0000
  {
    var h := w / FdUnit;
    assert h / 0x1_0000 == w / ClientUnit;
  }

  /** The other direction: a word unpacks and packs back to itself exactly when its type byte is valid and its padding byte is zero. */
  lemma PackUnpack(w: U64)
    ensures (Unpack(w).Some? && Pack(Unpack(w).value) == w) <==> (TypeByte(w) < 3 && PaddingByte(w) == 0)
  {
    if TypeByte(w) < 3 {
      var r := Unpack(w).value;
      PackFields(r);
      SplitLow(w);
      SplitHigh(w);
      if PaddingByte(w) == 0 {
        assert Pack(r) == w;
      } else {
        assert PaddingByte(Pack(r)) != PaddingByte(w);
      }
    }
  }

  /** Distinct requests get distinct tokens, so a completion identifies its operation. */
  lemma PackInjective(r1: IORequest, r2: IORequest)
    ensures Pack(r1) == Pack(r2) <==> r1 == r2
  {
    if Pack(r1) == Pack(r2) {
      UnpackPack(r1);
      UnpackPack(r2);
    }
  }
}
