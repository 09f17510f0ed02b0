/**
  The bot token's frame on file descriptor 3: a four-byte big-endian length and that many bytes,
  read with as many short reads as the pipe cares to make.
 */
module Fd3Frame {

  newtype byte = x: int | 0 <= x < 256

  datatype Error = EndOfFile | NoPipe

  datatype Result<+T> = Ok(value: T) | Err(error: Error)

  const HEADER: nat := 4

  // ----- the frame -----

  function Pack(n: nat): (h: seq<byte>)
    requires n < 0x1_0000_0000
    ensures |h| == HEADER
  {
    [(n / 0x100_0000) as byte, (n / 0x1_0000 % 0x100) as byte, (n / 0x100 % 0x100) as byte, (n % 0x100) as byte]
  }

  function Unpack(h: seq<byte>): nat
    requires |h| == HEADER
  {
    h[0] as nat * 0x100_0000 + h[1] as nat * 0x1_0000 + h[2] as nat * 0x100 + h[3] as nat
  }

  /** What the core writes. */
  function Frame(body: seq<byte>): seq<byte>
    requires |body| < 0x1_0000_0000
  {
    Pack(|body|) + body
  }

  /** What the reader makes of a stream: the body, if the stream holds a whole frame. */
  function Parsed(stream: seq<byte>): Result<seq<byte>> {
    if |stream| < HEADER then Err(EndOfFile)
    else
      var length := Unpack(stream[..HEADER]);
      if |stream| - HEADER < length then Err(EndOfFile) else Ok(stream[HEADER..HEADER + length])
  }

  lemma UnpackPack(n: nat)
    requires n < 0x1_0000_0000
    ensures Unpack(Pack(n)) == n
  {
    var high, low := n / 0x1_0000, n % 0x1_0000;
    assert n / 0x100_0000 == high / 0x100;
    assert n / 0x100 % 0x100 == low / 0x100;
    assert n % 0x100 == low % 0x100;
  }

  /** Every four bytes are the header of exactly one length. */
  lemma PackUnpack(h: seq<byte>)
    requires |h| == HEADER
    ensures Unpack(h) < 0x1_0000_0000 && Pack(Unpack(h)) == h
  {
    Digits(h[0] as nat, h[1] as nat, h[2] as nat, h[3] as nat);
  }

  lemma Digits(a: nat, b: nat, c: nat, d: nat)
    requires a < 0x100 && b < 0x100 && c < 0x100 && d < 0x100
    ensures
      var n := a * 0x100_0000 + b * 0x1_0000 + c * 0x100 + d;
      n / 0x100_0000 == a && n / 0x1_0000 % 0x100 == b && n / 0x100 % 0x100 == c && n % 0x100 == d
  {
    var n := a * 0x100_0000 + b * 0x1_0000 + c * 0x100 + d;
    assert n / 0x1_0000 == a * 0x100 + b;
    assert n / 0x100 == (a * 0x100 + b) * 0x100 + c;
  }

  /** The order of a dictionary. */
  predicate ComesBefore(a: seq<byte>, b: seq<byte>)
    requires |a| == |b|
  {
    if a == [] then false
    else if a[0] == b[0] then ComesBefore(a[1..], b[1..])
    else a[0] < b[0]
  }

  /** The most significant byte comes first: headers order like the lengths they announce. */
  lemma HeadersOrderLikeLengths(a: seq<byte>, b: seq<byte>)
    requires |a| == |b| == HEADER
    ensures ComesBefore(a, b) <==> Unpack(a) < Unpack(b)
  {
    var a', b' := a[1..], b[1..];
    assert ComesBefore(a', b') <==> if a'[0] == b'[0] then ComesBefore(a'[1..], b'[1..]) else a'[0] < b'[0];
    var a'', b'' := a'[1..], b'[1..];
    assert ComesBefore(a'', b'') <==> if a''[0] == b''[0] then ComesBefore(a''[1..], b''[1..]) else a''[0] < b''[0];
    assert ComesBefore(a''[1..], b''[1..]) <==> a[3] < b[3];
  }

  /** A frame, with anything after it, reads back as its body. */
  lemma FrameReadsBack(body: seq<byte>, rest: seq<byte>)
    requires |body| < 0x1_0000_0000
    ensures Parsed(Frame(body) + rest) == Ok(body)
  {
    var stream := Frame(body) + rest;
    assert stream[..HEADER] == Pack(|body|);
    UnpackPack(|body|);
    assert stream[HEADER..HEADER + |body|] == body;
  }

  /** A frame cut short anywhere reads as an error. */
  lemma CutFrameFails(body: seq<byte>, cut: nat)
    requires |body| < 0x1_0000_0000 && cut < |Frame(body)|
    ensures Parsed(Frame(body)[..cut]) == Err(EndOfFile)
  {
    var stream := Frame(body)[..cut];
    if cut >= HEADER {
      assert stream[..HEADER] == Pack(|body|);
      UnpackPack(|body|);
    }
  }

  // ----- the reader -----

  class Descriptor {
    /** Everything that will ever arrive before the writer closes its end. */
    const stream: seq<byte>
    const isPipe: bool
    /** How much the pipe hands out in each read, however little it likes. */
    var schedule: seq<nat>
    var position: nat
    var isOpen: bool

    ghost predicate Valid()
      reads this
    {
      position <= |stream|
    }

    constructor (stream: seq<byte>, isPipe: bool, isOpen: bool, schedule: seq<nat>)
      ensures Valid() && this.stream == stream && this.isPipe == isPipe && this.isOpen == isOpen
      ensures position == 0
    {
      this.stream, this.isPipe, this.isOpen, this.schedule, this.position := stream, isPipe, isOpen, schedule, 0;
    }

    /** `os.read`: at least one and at most `count` bytes, or none at the end of the stream. */
    method Read(count: nat) returns (chunk: seq<byte>)
      requires Valid() && isOpen && isPipe && count > 0
      modifies this`schedule, this`position
      ensures Valid()
      ensures position == old(position) + |chunk| && |chunk| <= count
      ensures chunk == stream[old(position)..position]
      ensures chunk == [] <==> old(position) == |stream|
    {
      var size := |stream| - position;
      if size > count {
        size := count;
      }
      if schedule != [] {
        if 0 < schedule[0] < size {
          size := schedule[0];
        }
        schedule := schedule[1..];
      }
      chunk := stream[position..position + size];
      position := position + size;
    }

    method Close()
      modifies this`isOpen
      ensures !isOpen
    {
      isOpen := false;
    }
  }

  /** Loops over short reads; never hands out a partial buffer. */
  method ReadExactly(fd: Descriptor, count: nat) returns (r: Result<seq<byte>>)
    requires fd.Valid() && fd.isOpen && fd.isPipe
    modifies fd`schedule, fd`position
    ensures fd.Valid()
    ensures old(fd.position) + count <= |fd.stream| ==>
              && fd.position == old(fd.position) + count
              && r == Ok(fd.stream[old(fd.position)..fd.position])
    ensures old(fd.position) + count > |fd.stream| ==> r == Err(EndOfFile) && fd.position == |fd.stream|
  {
    var chunks: seq<byte> := [];
    var remaining := count;
    while remaining > 0
      invariant fd.Valid() && 0 <= remaining <= count
      invariant fd.position == old(fd.position) + count - remaining
      invariant chunks == fd.stream[old(fd.position)..fd.position]
    {
      var chunk := fd.Read(remaining);
      if chunk == [] {
        return Err(EndOfFile);
      }
      chunks := chunks + chunk;
      remaining := remaining - |chunk|;
    }
    r := Ok(chunks);
  }

  /** Reads one frame and closes the descriptor, whatever happens. */
  method ReadToken(fd: Descriptor) returns (r: Result<seq<byte>>)
    requires fd.Valid()
    modifies fd
    ensures fd.Valid() && !fd.isOpen
    ensures !(old(fd.isOpen) && fd.isPipe) ==> r == Err(NoPipe) && fd.position == old(fd.position)
    ensures old(fd.isOpen) && fd.isPipe ==> r == Parsed(fd.stream[old(fd.position)..])
    ensures r.Ok? ==> fd.position == old(fd.position) + HEADER + |r.value|
  {
    if !fd.isOpen || !fd.isPipe {
      fd.Close();
      return Err(NoPipe);
    }
    ghost var rest := fd.stream[fd.position..];
    r := ReadExactly(fd, HEADER);
    if r.Ok? {
      assert r.value == rest[..HEADER];
      var length := Unpack(r.value);
      r := ReadExactly(fd, length);
      assert r.Ok? ==> r.value == rest[HEADER..HEADER + length];
    }
    fd.Close();
  }
}
