/**
 How a secondary keeps a transfer (`encode_transfer` and `decode_transfer`):
 each record's wire form after its length in four bytes. The record's own wire
 format is a parameter.
 */
module TransferCodec {
  import opened Addresses

  newtype Byte = n: int | 0 <= n < 256

  const LENGTHS: nat := 0x1_0000_0000

  datatype Decoded<+R> = Ok(records: seq<R>) | Truncated | Unreadable

  /** A length as stored: cut to 32 bits, most significant byte first. */
  function Be4(n: nat): (b: seq<Byte>)
    ensures |b| == 4
  {
    var m := n % LENGTHS;
    [(m / 0x100_0000) as Byte, (m / 0x1_0000 % 0x100) as Byte, (m / 0x100 % 0x100) as Byte, (m % 0x100) as Byte]
  }

  function FromBe4(b: seq<Byte>): nat
    requires |b| == 4
  {
    b[0] as int * 0x100_0000 + b[1] as int * 0x1_0000 + b[2] as int * 0x100 + b[3] as int
  }

  /** A stored length is right exactly when it fits in four bytes. */
  lemma Be4RoundTrip(n: nat)
    ensures FromBe4(Be4(n)) == n <==> n < LENGTHS
  {
    BytesAddUp(n % LENGTHS);
  }

  lemma BytesAddUp(m: nat)
    requires m < LENGTHS
    ensures m / 0x100_0000 * 0x100_0000 + m / 0x1_0000 % 0x100 * 0x1_0000 + m / 0x100 % 0x100 * 0x100 + m % 0x100 == m
  {
    var a, b := m / 0x100, m / 0x1_0000;
    assert m == 0x100 * a + m % 0x100;
    assert a / 0x100 == b && a == 0x100 * b + a % 0x100;
    assert b / 0x100 == m / 0x100_0000 && b == 0x100 * (b / 0x100) + b % 0x100;
  }

  function Frame(buf: seq<Byte>): seq<Byte> {
    Be4(|buf|) + buf
  }

  /** The stored form of `records`; `emit` is the record's wire form. */
  function Encode<R>(records: seq<R>, emit: R -> seq<Byte>): seq<Byte> {
    if records == [] then [] else Frame(emit(records[0])) + Encode(records[1..], emit)
  }

  function Decode<R>(wire: seq<Byte>, read: seq<Byte> -> Option<R>): Decoded<R>
    decreases |wire|
  {
    if wire == [] then Ok([])
    else if |wire| < 4 then Truncated
    else
      var len, rest := FromBe4(wire[..4]), wire[4..];
      if len > |rest| then Truncated
      else
        match read(rest[..len])
        case None => Unreadable
        case Some(r) =>
          (match Decode(rest[len..], read)
           case Ok(more) => Ok([r] + more)
           case err => err)
  }

  /** `read` undoes `emit` on these records, none of which needs 2^32 bytes. */
  ghost predicate Storable<R>(records: seq<R>, emit: R -> seq<Byte>, read: seq<Byte> -> Option<R>) {
    forall r | r in records :: read(emit(r)) == Some(r) && |emit(r)| < LENGTHS
  }

  lemma FrameFirst<R>(r: R, rest: seq<Byte>, emit: R -> seq<Byte>, read: seq<Byte> -> Option<R>)
    requires Storable([r], emit, read)
    ensures Decode(Frame(emit(r)) + rest, read) ==
              match Decode(rest, read) case Ok(more) => Ok([r] + more) case err => err
  {
    var buf := emit(r);
    assert r in [r];
    var wire := Frame(buf) + rest;
    Be4RoundTrip(|buf|);
    assert wire[..4] == Be4(|buf|);
    assert wire[4..] == buf + rest;
    assert (buf + rest)[..|buf|] == buf && (buf + rest)[|buf|..] == rest;
  }

  /** Decoding undoes encoding, for every record list. */
  lemma {:induction false} RoundTrip<R>(records: seq<R>, emit: R -> seq<Byte>, read: seq<Byte> -> Option<R>)
    requires Storable(records, emit, read)
    ensures Decode(Encode(records, emit), read) == Ok(records)
    decreases |records|
  {
    if records != [] {
      RoundTrip(records[1..], emit, read);
      FrameFirst(records[0], Encode(records[1..], emit), emit, read);
      assert records == [records[0]] + records[1..];
    }
  }

  /** No two record lists are stored as the same bytes. */
  lemma StoredFormIsUnique<R>(a: seq<R>, b: seq<R>, emit: R -> seq<Byte>, read: seq<Byte> -> Option<R>)
    requires Storable(a, emit, read) && Storable(b, emit, read)
    requires Encode(a, emit) == Encode(b, emit)
    ensures a == b
  {
    RoundTrip(a, emit, read);
    RoundTrip(b, emit, read);
  }

  lemma CutInFrame<R>(r: R, cut: seq<Byte>, emit: R -> seq<Byte>, read: seq<Byte> -> Option<R>)
    requires Storable([r], emit, read) && cut <= Frame(emit(r)) && 0 < |cut| < |Frame(emit(r))|
    ensures Decode(cut, read) == Truncated
  {
    assert r in [r];
    Be4RoundTrip(|emit(r)|);
    if |cut| >= 4 {
      assert cut[..4] == Be4(|emit(r)|);
    }
  }

  /** The frames of the first `k` records take `n` bytes. */
  ghost predicate Boundary<R>(records: seq<R>, emit: R -> seq<Byte>, k: nat, n: nat) {
    k <= |records| && |Encode(records[..k], emit)| == n
  }

  lemma BoundaryNext<R>(records: seq<R>, emit: R -> seq<Byte>, k: nat, n: nat)
    requires records != [] && k > 0
    ensures Boundary(records, emit, k, |Frame(emit(records[0]))| + n) <==> Boundary(records[1..], emit, k - 1, n)
  {
    if k <= |records| {
      assert records[..k][1..] == records[1..][..k - 1];
    }
  }

  lemma UnreadableFirst<R>(bytes: seq<Byte>, rest: seq<Byte>, read: seq<Byte> -> Option<R>)
    requires read(bytes) == None && |bytes| < 0x1_0000_0000
    ensures Decode(Frame(bytes) + rest, read) == Unreadable
  {
    var wire := Frame(bytes) + rest;
    Be4RoundTrip(|bytes|);
    assert wire[..4] == Be4(|bytes|) && wire[4..] == bytes + rest;
    assert (bytes + rest)[..|bytes|] == bytes;
  }

  /** A stored record that cannot be read is an error, whatever comes before and after it. */
  lemma {:induction false} UnreadableFails<R>(
      records: seq<R>, bytes: seq<Byte>, rest: seq<Byte>, emit: R -> seq<Byte>, read: seq<Byte> -> Option<R>)
    requires Storable(records, emit, read) && read(bytes) == None && |bytes| < 0x1_0000_0000
    ensures Decode(Encode(records, emit) + (Frame(bytes) + rest), read) == Unreadable
    decreases |records|
  {
    var tail := Frame(bytes) + rest;
    UnreadableFirst(bytes, rest, read);
    if records == [] {
      assert Encode(records, emit) + tail == tail;
    } else {
      UnreadableFails(records[1..], bytes, rest, emit, read);
      FramesThen(records, tail, emit, read);
    }
  }

  lemma FramesThen<R>(records: seq<R>, tail: seq<Byte>, emit: R -> seq<Byte>, read: seq<Byte> -> Option<R>)
    requires records != [] && Storable(records, emit, read) && Decode(Encode(records[1..], emit) + tail, read) == Unreadable
    ensures Decode(Encode(records, emit) + tail, read) == Unreadable
  {
    var more := Encode(records[1..], emit) + tail;
    FrameFirst(records[0], more, emit, read);
    assert Encode(records, emit) + tail == Frame(emit(records[0])) + more;
  }

  /** `n` bytes are not a whole number of frames. */
  ghost predicate OffBoundary<R>(records: seq<R>, emit: R -> seq<Byte>, n: nat) {
    forall k: nat :: !Boundary(records, emit, k, n)
  }

  lemma OffBoundaryBehind<R>(records: seq<R>, emit: R -> seq<Byte>, n: nat)
    requires records != [] && OffBoundary(records, emit, |Frame(emit(records[0]))| + n)
    ensures OffBoundary(records[1..], emit, n)
  {
    forall k: nat
      ensures !Boundary(records[1..], emit, k, n)
    {
      BoundaryNext(records, emit, k + 1, n);
    }
  }

  lemma DecodeBehindFrame<R>(records: seq<R>, m: nat, emit: R -> seq<Byte>, read: seq<Byte> -> Option<R>)
    requires records != [] && Storable([records[0]], emit, read) && m <= |Encode(records[1..], emit)|
    ensures var n := |Frame(emit(records[0]))| + m;
      && n <= |Encode(records, emit)|
      && Decode(Encode(records, emit)[..n], read) ==
           match Decode(Encode(records[1..], emit)[..m], read) case Ok(more) => Ok([records[0]] + more) case err => err
  {
    var frame, cut := Frame(emit(records[0])), Encode(records[1..], emit)[..m];
    assert Encode(records, emit)[..|frame| + m] == frame + cut;
    FrameFirst(records[0], cut, emit, read);
  }

  /** A cut on a boundary is read. */
  lemma {:induction false} BoundaryReads<R>(
      records: seq<R>, k: nat, n: nat, emit: R -> seq<Byte>, read: seq<Byte> -> Option<R>)
    requires Storable(records, emit, read) && n <= |Encode(records, emit)| && Boundary(records, emit, k, n)
    ensures Decode(Encode(records, emit)[..n], read) == Ok(records[..k])
    decreases |records|
  {
    if k == 0 {
      assert n == 0;
    } else {
      var m := n - |Frame(emit(records[0]))|;
      assert records[..k][1..] == records[1..][..k - 1];
      assert Storable([records[0]], emit, read);
      BoundaryReads(records[1..], k - 1, m, emit, read);
      DecodeBehindFrame(records, m, emit, read);
      assert records[..k] == [records[0]] + records[1..][..k - 1];
    }
  }

  /** A cut anywhere else is noticed. */
  lemma {:induction false} OffBoundaryFails<R>(
      records: seq<R>, n: nat, emit: R -> seq<Byte>, read: seq<Byte> -> Option<R>)
    requires Storable(records, emit, read) && n <= |Encode(records, emit)| && OffBoundary(records, emit, n)
    ensures Decode(Encode(records, emit)[..n], read) == Truncated
    decreases |records|
  {
    assert n != 0 by {
      assert Encode(records[..0], emit) == [] && !Boundary(records, emit, 0, n);
    }
    var frame := Frame(emit(records[0]));
    assert Storable([records[0]], emit, read);
    if n < |frame| {
      CutInFrame(records[0], Encode(records, emit)[..n], emit, read);
    } else {
      var m := n - |frame|;
      OffBoundaryBehind(records, emit, m);
      OffBoundaryFails(records[1..], m, emit, read);
      DecodeBehindFrame(records, m, emit, read);
    }
  }

  /**
   A stored transfer cut short anywhere: on a frame boundary the records
   before it are read, anywhere else it is an error.
   */
  lemma CutAnywhere<R>(records: seq<R>, n: nat, emit: R -> seq<Byte>, read: seq<Byte> -> Option<R>)
    requires Storable(records, emit, read) && n <= |Encode(records, emit)|
    ensures var cut := Encode(records, emit)[..n];
      && (Decode(cut, read) == Truncated <==> OffBoundary(records, emit, n))
      && (forall k: nat | Boundary(records, emit, k, n) :: Decode(cut, read) == Ok(records[..k]))
  {
    if OffBoundary(records, emit, n) {
      OffBoundaryFails(records, n, emit, read);
    }
    forall k: nat | Boundary(records, emit, k, n)
      ensures Decode(Encode(records, emit)[..n], read) == Ok(records[..k])
    {
      BoundaryReads(records, k, n, emit, read);
    }
  }

  // ---- The two loops ---------------------------------------------------------------

  lemma {:induction false} EncodeAppend<R>(a: seq<R>, r: R, emit: R -> seq<Byte>)
    ensures Encode(a + [r], emit) == Encode(a, emit) + Frame(emit(r))
    decreases |a|
  {
    if a == [] {
      assert (a + [r])[1..] == [];
    } else {
      EncodeAppend(a[1..], r, emit);
      assert (a + [r])[1..] == a[1..] + [r];
    }
  }

  method EncodeTransfer<R>(records: seq<R>, emit: R -> seq<Byte>) returns (wire: seq<Byte>)
    ensures wire == Encode(records, emit)
  {
    wire := [];
    for i := 0 to |records|
      invariant wire == Encode(records[..i], emit)
    {
      var buf := emit(records[i]);
      assert records[..i + 1] == records[..i] + [records[i]];
      EncodeAppend(records[..i], records[i], emit);
      wire := wire + Be4(|buf|);
      wire := wire + buf;
    }
    assert records[..|records|] == records;
  }

  /** What is left to decode, put behind what has been decoded. */
  function Prepend<R>(done: seq<R>, rest: Decoded<R>): Decoded<R> {
    match rest case Ok(more) => Ok(done + more) case err => err
  }

  method DecodeTransfer<R>(wire: seq<Byte>, read: seq<Byte> -> Option<R>) returns (result: Decoded<R>)
    ensures result == Decode(wire, read)
  {
    var rest, records := wire, [];
    while rest != []
      invariant Prepend(records, Decode(rest, read)) == Decode(wire, read)
      decreases |rest|
    {
      if |rest| < 4 {
        return Truncated;
      }
      var len := FromBe4(rest[..4]);
      rest := rest[4..];
      if len > |rest| {
        return Truncated;
      }
      match read(rest[..len]) {
        case None =>
          return Unreadable;
        case Some(r) =>
          ghost var more := Decode(rest[len..], read);
          assert more.Ok? ==> records + ([r] + more.records) == (records + [r]) + more.records;
          records := records + [r];
          rest := rest[len..];
      }
    }
    assert records + [] == records;
    return Ok(records);
  }
}
