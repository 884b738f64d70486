/**
Splitting a byte stream into JPEG images (internal/ingest/ffmpeg.go).

The scanner reads FF together with the byte after it.  A stream is a finite list of bytes followed by
end of file, or by a read error, for ever.
*/
module Jpeg {
  import opened Options

  type Byte = b: int | 0 <= b < 0x100

  const FF: Byte := 0xFF
  const SOI: Byte := 0xD8
  const EOI: Byte := 0xD9
  const LIMIT := 10 * 1024 * 1024
  const MAX_STARTUP_RETRIES := 50

  // ---- the pair scan ----

  /** What is left after the first FF m the scan recognises. */
  function AfterMarker(s: seq<Byte>, m: Byte): Option<seq<Byte>> {
    if s == [] then None
    else if s[0] != FF then AfterMarker(s[1..], m)
    else if |s| == 1 then None
    else if s[1] == m then Some(s[2..])
    else AfterMarker(s[2..], m)
  }

  /** Bytes that parse as tokens: a byte other than FF, or FF with a byte other than m. */
  predicate Aligned(s: seq<Byte>, m: Byte) {
    if s == [] then true
    else if s[0] != FF then Aligned(s[1..], m)
    else |s| >= 2 && s[1] != m && Aligned(s[2..], m)
  }

  /** Aligned bytes hide no marker, whatever follows. */
  lemma {:induction false} ScanPastAligned(gap: seq<Byte>, m: Byte, rest: seq<Byte>)
    requires Aligned(gap, m)
    ensures AfterMarker(gap + [FF, m] + rest, m) == Some(rest)
    decreases |gap|
  {
    var s := gap + [FF, m] + rest;
    if gap == [] {
      assert s[2..] == rest;
    } else if gap[0] != FF {
      assert s[1..] == gap[1..] + [FF, m] + rest;
      ScanPastAligned(gap[1..], m, rest);
    } else {
      assert s[2..] == gap[2..] + [FF, m] + rest;
      ScanPastAligned(gap[2..], m, rest);
    }
  }

  /** The bytes before the marker the scan stops at. */
  function Skipped(s: seq<Byte>, m: Byte): seq<Byte>
    requires AfterMarker(s, m).Some?
  {
    if s[0] != FF then [s[0]] + Skipped(s[1..], m)
    else if s[1] == m then []
    else [s[0], s[1]] + Skipped(s[2..], m)
  }

  /** Conversely, what the scan skipped is aligned. */
  lemma {:induction false} ScanSkipsAligned(s: seq<Byte>, m: Byte)
    requires AfterMarker(s, m).Some?
    ensures Aligned(Skipped(s, m), m)
    ensures s == Skipped(s, m) + [FF, m] + AfterMarker(s, m).value
    decreases |s|
  {
    var gap := Skipped(s, m);
    if s[0] != FF {
      ScanSkipsAligned(s[1..], m);
      assert gap[1..] == Skipped(s[1..], m);
    } else if s[1] != m {
      ScanSkipsAligned(s[2..], m);
      assert gap[2..] == Skipped(s[2..], m);
    }
  }

  // ---- against the plain reading: the first occurrence of FF m ----

  predicate MarkerAt(s: seq<Byte>, i: nat, m: Byte) {
    i + 1 < |s| && s[i] == FF && s[i + 1] == m
  }

  predicate FirstMarker(s: seq<Byte>, i: nat, m: Byte) {
    MarkerAt(s, i, m) && forall k: nat :: k < i ==> !MarkerAt(s, k, m)
  }

  /** Length of the run of FF bytes that ends at i. */
  function FFRun(s: seq<Byte>, i: nat): nat
    requires i < |s|
  {
    if s[i] != FF then 0 else if i == 0 then 1 else 1 + FFRun(s, i - 1)
  }

  /** Dropping a prefix shortens a run only if the run reaches into it. */
  lemma {:induction false} FFRunSuffix(s: seq<Byte>, n: nat, i: nat)
    requires 0 < n <= i < |s|
    ensures FFRun(s, i) == FFRun(s[n..], i - n) + if FFRun(s[n..], i - n) == i - n + 1 then FFRun(s, n - 1) else 0
    ensures FFRun(s[n..], i - n) <= i - n + 1
    decreases i
  {
    if s[i] == FF && i > n {
      FFRunSuffix(s, n, i - 1);
    }
  }

  /** The scan finds the first occurrence of FF m exactly when the run of FF bytes leading into it has
      odd length; when the length is even it misses the marker and carries on behind it. */
  lemma {:induction false} FirstMarkerByParity(s: seq<Byte>, i: nat, m: Byte)
    requires FirstMarker(s, i, m) && m != FF
    ensures AfterMarker(s, m) == if FFRun(s, i) % 2 == 1 then Some(s[i + 2..]) else AfterMarker(s[i + 2..], m)
    decreases |s|
  {
    if s[0] != FF {
      ShiftMarker(s, 1, i, m);
      FirstMarkerByParity(s[1..], i - 1, m);
      TokenKeepsParity(s, 1, i);
      assert s[1..][i + 1..] == s[i + 2..];
    } else if s[1] == m {
      assert MarkerAt(s, 0, m);
    } else if i == 1 {
      assert FFRun(s, 0) == 1;
      assert s[2..][1..] == s[3..];
    } else {
      ShiftMarker(s, 2, i, m);
      FirstMarkerByParity(s[2..], i - 2, m);
      TokenKeepsParity(s, 2, i);
      assert s[2..][i..] == s[i + 2..];
    }
  }

  /** Dropping one token, whatever it is, keeps the parity of every run behind it. */
  lemma TokenKeepsParity(s: seq<Byte>, n: nat, i: nat)
    requires 0 < n <= i < |s|
    requires (n == 1 && s[0] != FF) || (n == 2 && s[0] == FF)
    ensures FFRun(s, i) % 2 == FFRun(s[n..], i - n) % 2
  {
    FFRunSuffix(s, n, i);
    assert FFRun(s, 0) <= 1;
    assert FFRun(s, n - 1) % 2 == 0;
  }

  lemma ShiftMarker(s: seq<Byte>, n: nat, i: nat, m: Byte)
    requires FirstMarker(s, i, m) && n <= i
    ensures FirstMarker(s[n..], i - n, m)
  {
    forall k: nat | k < i - n ensures !MarkerAt(s[n..], k, m) {
      assert !MarkerAt(s, k + n, m);
    }
  }

  /** Without an occurrence the scan finds nothing. */
  lemma {:induction false} NoMarker(s: seq<Byte>, m: Byte)
    requires forall k: nat :: !MarkerAt(s, k, m)
    ensures AfterMarker(s, m) == None
    decreases |s|
  {
    if s != [] && s[0] != FF {
      forall k: nat ensures !MarkerAt(s[1..], k, m) { assert !MarkerAt(s, k + 1, m); }
      NoMarker(s[1..], m);
    } else if |s| > 1 {
      forall k: nat ensures !MarkerAt(s[2..], k, m) { assert !MarkerAt(s, k + 2, m); }
      assert !MarkerAt(s, 0, m);
      NoMarker(s[2..], m);
    }
  }

  /** On streams with no two FF bytes in a row the scan is the search for the first occurrence. */
  lemma WithoutFillBytes(s: seq<Byte>, m: Byte)
    requires m != FF
    requires forall k :: 0 <= k < |s| - 1 ==> !(s[k] == FF && s[k + 1] == FF)
    ensures forall i: nat :: FirstMarker(s, i, m) ==> AfterMarker(s, m) == Some(s[i + 2..])
    ensures (forall k: nat :: !MarkerAt(s, k, m)) ==> AfterMarker(s, m) == None
  {
    forall i: nat | FirstMarker(s, i, m) ensures AfterMarker(s, m) == Some(s[i + 2..]) {
      FirstMarkerByParity(s, i, m);
      if i > 0 {
        assert s[i - 1] != FF;
      }
      assert FFRun(s, i) == 1;
    }
    if forall k: nat :: !MarkerAt(s, k, m) {
      NoMarker(s, m);
    }
  }

  // ---- one image ----

  datatype ImageRead =
    | Image(data: seq<Byte>, rest: seq<Byte>)
    | Ended
    | TooLarge(size: nat, rest: seq<Byte>)

  /** Reads on from `data`, the bytes of the image so far. */
  function ReadImage(data: seq<Byte>, s: seq<Byte>): (r: ImageRead)
    ensures r.TooLarge? ==> r.size > LIMIT
    decreases |s|
  {
    if s == [] then Ended
    else if s[0] != FF then
      if |data| + 1 > LIMIT then TooLarge(|data| + 1, s[1..]) else ReadImage(data + [s[0]], s[1..])
    else if |s| == 1 then Ended
    else if s[1] == EOI then Image(data + [FF, EOI], s[2..])
    else if |data| + 2 > LIMIT then TooLarge(|data| + 2, s[2..])
    else ReadImage(data + [FF, s[1]], s[2..])
  }

  /** If the scan finds an end marker, the image is emitted exactly when the bytes before the marker stay
      within the limit; otherwise the frame is refused. */
  lemma {:induction false} ImageBySize(data: seq<Byte>, s: seq<Byte>)
    requires AfterMarker(s, EOI).Some?
    ensures var body := Skipped(s, EOI);
      if body == [] || |data| + |body| <= LIMIT
      then ReadImage(data, s) == Image(data + body + [FF, EOI], AfterMarker(s, EOI).value)
      else ReadImage(data, s).TooLarge?
    decreases |s|
  {
    var body := Skipped(s, EOI);
    if s[0] != FF {
      if |data| + 1 <= LIMIT {
        ImageBySize(data + [s[0]], s[1..]);
        assert data + [s[0]] + Skipped(s[1..], EOI) + [FF, EOI] == data + body + [FF, EOI];
      }
    } else if s[1] != EOI {
      if |data| + 2 <= LIMIT {
        ImageBySize(data + [FF, s[1]], s[2..]);
        assert data + [FF, s[1]] + Skipped(s[2..], EOI) + [FF, EOI] == data + body + [FF, EOI];
      }
    } else {
      assert data + body + [FF, EOI] == data + [FF, EOI];
    }
  }

  /** Once a start is found, a complete image is emitted if and only if its whole length, markers
      included, is at most the limit plus two. */
  lemma EmittedIffSmall(s: seq<Byte>)
    requires AfterMarker(s, EOI).Some?
    ensures ReadImage([FF, SOI], s).Image? <==> |[0xFF, 0xD8] + Skipped(s, 0xD9) + [0xFF, 0xD9]| <= 10 * 1024 * 1024 + 2
    ensures ReadImage([FF, SOI], s).Image? ==>
      ReadImage([FF, SOI], s).data == [0xFF, 0xD8] + Skipped(s, 0xD9) + [0xFF, 0xD9]
  {
    ImageBySize([FF, SOI], s);
  }

  lemma {:induction false} NoEndNoImage(data: seq<Byte>, s: seq<Byte>)
    requires AfterMarker(s, EOI).None?
    ensures !ReadImage(data, s).Image?
    decreases |s|
  {
    if s != [] && s[0] != FF {
      NoEndNoImage(data + [s[0]], s[1..]);
    } else if |s| > 1 {
      NoEndNoImage(data + [FF, s[1]], s[2..]);
    }
  }

  // ---- the whole stream ----

  datatype Stop = NoStart | MidImage | TooBig

  /** The images of a stream and why splitting ended. */
  function Split(s: seq<Byte>): (seq<seq<Byte>>, Stop)
    decreases |s|
  {
    match AfterMarker(s, SOI)
    case None => ([], NoStart)
    case Some(rest) =>
      AfterMarkerShorter(s, SOI);
      match ReadImage([FF, SOI], rest)
      case Ended => ([], MidImage)
      case TooLarge(_, _) => ([], TooBig)
      case Image(data, rest') =>
        ImageRestShorter([FF, SOI], rest);
        var (more, stop) := Split(rest');
        ([data] + more, stop)
  }

  lemma {:induction false} AfterMarkerShorter(s: seq<Byte>, m: Byte)
    ensures AfterMarker(s, m).Some? ==> |AfterMarker(s, m).value| + 2 <= |s|
    decreases |s|
  {
    if s != [] && s[0] != FF {
      AfterMarkerShorter(s[1..], m);
    } else if |s| > 1 && s[1] != m {
      AfterMarkerShorter(s[2..], m);
    }
  }

  lemma {:induction false} ImageRestShorter(data: seq<Byte>, s: seq<Byte>)
    ensures ReadImage(data, s).Image? ==> |ReadImage(data, s).rest| + 2 <= |s|
    decreases |s|
  {
    if s != [] && s[0] != FF {
      ImageRestShorter(data + [s[0]], s[1..]);
    } else if |s| > 1 && s[1] != EOI {
      ImageRestShorter(data + [FF, s[1]], s[2..]);
    }
  }

  /** A gap before each image, and the image's bytes between its markers. */
  datatype Piece = Piece(gap: seq<Byte>, body: seq<Byte>) {
    predicate Valid() {
      Aligned(gap, SOI) && Aligned(body, EOI) && |body| + 2 <= LIMIT
    }

    function Bytes(): seq<Byte> { [FF, SOI] + body + [FF, EOI] }
  }

  function Joined(pieces: seq<Piece>, tail: seq<Byte>): seq<Byte> {
    if pieces == [] then tail else pieces[0].gap + (pieces[0].Bytes() + Joined(pieces[1..], tail))
  }

  function Images(pieces: seq<Piece>): seq<seq<Byte>> {
    if pieces == [] then [] else [pieces[0].Bytes()] + Images(pieces[1..])
  }

  /** Which pieces a joining may be made of: a gap of bytes other than FF and pairs FF x with x other than
      D8, an image whose body has no pair FF D9 in step, and at most 10 * 1024 * 1024 + 2 bytes in all. */
  lemma PieceIsValid(p: Piece)
    ensures p.Valid() <==>
      && Aligned(p.gap, 0xD8) && Aligned(p.body, 0xD9)
      && |[0xFF, 0xD8] + p.body + [0xFF, 0xD9]| <= 10 * 1024 * 1024 + 2
  {
  }

  lemma ReadPiece(p: Piece, rest: seq<Byte>)
    requires p.Valid()
    ensures AfterMarker(p.gap + (p.Bytes() + rest), SOI) == Some(p.body + [FF, EOI] + rest)
    ensures ReadImage([FF, SOI], p.body + [FF, EOI] + rest) == Image(p.Bytes(), rest)
  {
    var s := p.body + [FF, EOI] + rest;
    assert p.gap + (p.Bytes() + rest) == p.gap + [FF, SOI] + s;
    ScanPastAligned(p.gap, SOI, s);
    ScanPastAligned(p.body, EOI, rest);
    ScanSkipsAligned(s, EOI);
    assert Skipped(s, EOI) == p.body by {
      assert |Skipped(s, EOI)| == |p.body|;
      assert Skipped(s, EOI) == s[..|p.body|];
    }
    ImageBySize([FF, SOI], s);
  }

  /** Round trip: joining any images with aligned bodies, within the limit, and any aligned gaps, then
      splitting, gives back exactly those images in order, followed by what the tail holds. */
  lemma {:induction false} RoundTrip(pieces: seq<Piece>, tail: seq<Byte>)
    requires forall p :: p in pieces ==> p.Valid()
    ensures var (more, stop) := Split(tail);
      Split(Joined(pieces, tail)) == (Images(pieces) + more, stop)
    ensures forall p :: p in pieces ==> p.Bytes() == [0xFF, 0xD8] + p.body + [0xFF, 0xD9]
    ensures |Images(pieces)| == |pieces| && forall i :: 0 <= i < |pieces| ==> Images(pieces)[i] == pieces[i].Bytes()
  {
    if pieces == [] {
      assert [] + Split(tail).0 == Split(tail).0;
    } else {
      var p, rest := pieces[0], Joined(pieces[1..], tail);
      ReadPiece(p, rest);
      RoundTrip(pieces[1..], tail);
      var more := Split(tail).0;
      assert Images(pieces) + more == [p.Bytes()] + (Images(pieces[1..]) + more);
    }
  }

  /** Conversely, every stream is a joining of the images the splitter emits, with aligned gaps and
      bodies, and a tail in which it finds none: so these are exactly the streams that split into them. */
  lemma {:induction false} SplitIsJoined(s: seq<Byte>) returns (pieces: seq<Piece>, tail: seq<Byte>)
    ensures forall p :: p in pieces ==> p.Valid()
    ensures s == Joined(pieces, tail) && Split(s).0 == Images(pieces)
    ensures Split(tail) == ([], Split(s).1)
    decreases |s|
  {
    pieces, tail := [], s;
    if Split(s).0 != [] {
      var p, rest := FirstPiece(s);
      pieces, tail := SplitIsJoined(rest);
      pieces := [p] + pieces;
    }
  }

  ghost predicate JoinedFrom(s: seq<Byte>, frames: seq<seq<Byte>>, pieces: seq<Piece>, tail: seq<Byte>) {
    && (forall p :: p in pieces ==> p.Valid())
    && s == Joined(pieces, tail) && Images(pieces) == frames && Split(tail).0 == []
  }

  /** Exactly which streams split into a given list of images. */
  lemma SplitsExactlyWhenJoined(s: seq<Byte>, frames: seq<seq<Byte>>)
    ensures Split(s).0 == frames <==> exists pieces, tail :: JoinedFrom(s, frames, pieces, tail)
  {
    if Split(s).0 == frames {
      var pieces, tail := SplitIsJoined(s);
      assert JoinedFrom(s, frames, pieces, tail);
    }
    if exists pieces, tail :: JoinedFrom(s, frames, pieces, tail) {
      var pieces, tail :| JoinedFrom(s, frames, pieces, tail);
      RoundTrip(pieces, tail);
      assert Images(pieces) + [] == Images(pieces);
    }
  }

  /** A fill byte in front of the end marker, which section B.1.1.2 of ITU-T T.81 allows, hides it. */
  lemma FillByteHidesEnd()
    ensures Split([FF, SOI, FF, FF, EOI]) == ([], MidImage)
  {
    var s := [FF, SOI, FF, FF, EOI];
    assert s[2..] == [FF, FF, EOI] && s[2..][2..] == [EOI] && s[2..][2..][1..] == [];
    assert AfterMarker(s, SOI) == Some(s[2..]);
    assert ReadImage([FF, SOI, FF, FF], [EOI]) == ReadImage([FF, SOI, FF, FF] + [EOI], []);
    assert ReadImage([FF, SOI], [FF, FF, EOI]) == ReadImage([FF, SOI] + [FF, FF], [EOI]);
    assert [FF, SOI] + [FF, FF] == [FF, SOI, FF, FF];
  }

  lemma FirstPiece(s: seq<Byte>) returns (p: Piece, rest: seq<Byte>)
    requires Split(s).0 != []
    ensures p.Valid() && s == p.gap + (p.Bytes() + rest) && |rest| < |s|
    ensures Split(s) == ([p.Bytes()] + Split(rest).0, Split(rest).1)
  {
    hide Skipped, Aligned, ReadImage, AfterMarker;
    var inner := AfterMarker(s, SOI).value;
    AfterMarkerShorter(s, SOI);
    ScanSkipsAligned(s, SOI);
    var r := ReadImage([FF, SOI], inner);
    if AfterMarker(inner, EOI).None? {
      NoEndNoImage([FF, SOI], inner);
    }
    ImageBySize([FF, SOI], inner);
    ScanSkipsAligned(inner, EOI);
    ImageRestShorter([FF, SOI], inner);
    p, rest := Piece(Skipped(s, SOI), Skipped(inner, EOI)), r.rest;
    assert s == p.gap + (p.Bytes() + rest);
  }

  // ---- the reader and its loops ----

  datatype Outcome =
    | Finished
    | Cancelled
    | NoFrames(retries: nat)
    | UnexpectedEnd
    | Broken
    | FrameTooLarge(size: nat)

  class Reader {
    const data: seq<Byte>
    /** Whether the stream ends in a read error rather than end of file. */
    const broken: bool
    var pos: nat

    ghost predicate Valid()
      reads this
    {
      pos <= |data|
    }

    ghost function Rest(): seq<Byte>
      requires Valid()
      reads this
    {
      data[pos..]
    }

    constructor (data: seq<Byte>, broken: bool)
      ensures Valid() && Rest() == data && this.data == data && this.broken == broken
    {
      this.data, this.broken, pos := data, broken, 0;
    }

    method ReadByte() returns (b: Option<Byte>)
      requires Valid()
      modifies this
      ensures Valid()
      ensures if old(Rest()) == [] then b == None && Rest() == [] else b == Some(old(Rest())[0]) && Rest() == old(Rest())[1..]
    {
      if pos == |data| {
        return None;
      }
      b := Some(data[pos]);
      pos := pos + 1;
    }

    method FindJPEGStart() returns (found: bool)
      requires Valid()
      modifies this
      ensures Valid()
      ensures found == AfterMarker(old(Rest()), SOI).Some?
      ensures Rest() == if found then AfterMarker(old(Rest()), SOI).value else []
    {
      while true
        invariant Valid()
        invariant AfterMarker(Rest(), SOI) == AfterMarker(old(Rest()), SOI)
        decreases |Rest()|
      {
        ghost var s := Rest();
        var b := ReadByte();
        if b.None? {
          return false;
        }
        if b.value != FF {
          continue;
        }
        b := ReadByte();
        if b.None? {
          return false;
        }
        assert Rest() == s[2..];
        if b.value == SOI {
          return true;
        }
      }
    }

    method ReadUntilJPEGEnd() returns (r: ImageRead)
      requires Valid()
      modifies this
      ensures Valid()
      ensures r == ReadImage([FF, SOI], old(Rest()))
      ensures r.Image? ==> Rest() == r.rest
    {
      var image := [FF, SOI];
      while true
        invariant Valid()
        invariant ReadImage(image, Rest()) == ReadImage([FF, SOI], old(Rest()))
        decreases |Rest()|
      {
        ghost var s := Rest();
        var b := ReadByte();
        if b.None? {
          return Ended;
        }
        ghost var before := image;
        image := image + [b.value];
        if b.value == FF {
          var next := ReadByte();
          if next.None? {
            return Ended;
          }
          assert Rest() == s[2..];
          image := image + [next.value];
          assert image == before + [FF, next.value];
          if next.value == EOI {
            return Image(image, data[pos..]);
          }
        }
        if |image| > LIMIT {
          return TooLarge(|image|, data[pos..]);
        }
      }
    }

    /** The whole loop.  `cancelled(k)` is what the context says at turn k.  What has been emitted is
        always a prefix of the images of the stream, and all of them unless cancelled; giving up before
        the first image takes all fifty retries. */
    method ReadJPEGFrames(cancelled: nat -> bool) returns (frames: seq<seq<Byte>>, outcome: Outcome)
      requires Valid()
      modifies this
      ensures Valid()
      ensures frames <= Split(old(Rest())).0
      ensures outcome != Cancelled ==> frames == Split(old(Rest())).0
      ensures outcome == Cancelled ==> exists k :: cancelled(k)
      ensures forall k :: cancelled(k) ==> |frames| <= k
      ensures var stop := Split(old(Rest())).1;
        match outcome
        case Cancelled => true
        case Finished => !broken && stop != TooBig && frames != []
        case NoFrames(retries) => !broken && stop == NoStart && frames == [] && retries == 50
        case UnexpectedEnd => !broken && stop == MidImage && frames == []
        case Broken => broken && stop != TooBig
        case FrameTooLarge(size) => stop == TooBig && size > 10 * 1024 * 1024
    {
      frames := [];
      var startupRetries := 0;
      var turn := 0;
      assert frames + Split(Rest()).0 == Split(Rest()).0;
      while true
        invariant Valid() && startupRetries <= MAX_STARTUP_RETRIES
        invariant |frames| <= turn && forall k :: 0 <= k < turn ==> !cancelled(k)
        invariant Split(old(Rest())) == (frames + Split(Rest()).0, Split(Rest()).1)
        decreases |Rest()|, MAX_STARTUP_RETRIES - startupRetries
      {
        if cancelled(turn) {
          return frames, Cancelled;
        }
        turn := turn + 1;
        ghost var s := Rest();
        AfterMarkerShorter(s, SOI);
        var found := FindJPEGStart();
        if !found {
          if broken {
            return frames, Broken;
          }
          if |frames| == 0 && startupRetries < MAX_STARTUP_RETRIES {
            startupRetries := startupRetries + 1;
            continue;
          }
          if |frames| > 0 {
            return frames, Finished;
          }
          return frames, NoFrames(startupRetries);
        }
        ImageRestShorter([FF, SOI], Rest());
        var r := ReadUntilJPEGEnd();
        match r {
          case Ended =>
            if broken {
              return frames, Broken;
            }
            if |frames| > 0 {
              return frames, Finished;
            }
            return frames, UnexpectedEnd;
          case TooLarge(size, _) =>
            return frames, FrameTooLarge(size);
          case Image(image, _) =>
            assert frames + ([image] + Split(r.rest).0) == frames + [image] + Split(r.rest).0;
            frames := frames + [image];
        }
      }
    }
  }
}
