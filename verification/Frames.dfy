/** The frame grammar: nonce (12) | blob length u32 | blob, and the structural checker over it. */
module Frames {
  import opened Bytes
  import opened Crypto

  const MAX_MANIFEST_LEN: nat := 256 * 1024 * 1024
  const MAX_CHUNK_BLOB: nat := CHUNK_SIZE + TAG_LEN

  datatype Frame = Frame(nonce: bytes, blob: bytes)

  predicate WellSized(f: Frame, maxLen: nat) {
    |f.nonce| == NONCE_LEN && TAG_LEN <= |f.blob| <= maxLen && |f.blob| < 0x1_0000_0000
  }

  function FrameBytes(f: Frame): bytes {
    f.nonce + LE(|f.blob|, 4) + f.blob
  }

  datatype FrameRead = Parsed(frame: Frame, rest: bytes) | Failed(error: VaultError)

  /** One frame off the front of the stream. */
  function ParseFrame(s: bytes, maxLen: nat): FrameRead {
    if |s| < NONCE_LEN + 4 then Failed(Io)
    else
      var len := ReadU32(s[12..16]);
      if len < TAG_LEN || len > maxLen then Failed(Tampered)
      else if |s| < 16 + len then Failed(Io)
      else Parsed(Frame(s[..12], s[16..16 + len]), s[16 + len..])
  }

  lemma FrameSlices(n: bytes, l: bytes, b: bytes, rest: bytes)
    requires |n| == 12 && |l| == 4
    ensures var s := n + l + b + rest;
            && |s| == 16 + |b| + |rest| && s[..12] == n && s[12..16] == l
            && s[16..16 + |b|] == b && s[16 + |b|..] == rest
  {
  }

  lemma ParseOfFrame(f: Frame, rest: bytes, maxLen: nat)
    requires WellSized(f, maxLen)
    ensures ParseFrame(FrameBytes(f) + rest, maxLen) == Parsed(f, rest)
  {
    FrameSlices(f.nonce, LE(|f.blob|, 4), f.blob, rest);
    U32RoundTrip(|f.blob|);
  }

  lemma FrameOfParse(s: bytes, maxLen: nat)
    requires ParseFrame(s, maxLen).Parsed?
    ensures var p := ParseFrame(s, maxLen);
            WellSized(p.frame, maxLen) && s == FrameBytes(p.frame) + p.rest
  {
    var p := ParseFrame(s, maxLen);
    LEOfFromLE(s[12..16]);
    assert s == s[..12] + s[12..16] + p.frame.blob + p.rest;
  }

  lemma FrameLength(f: Frame)
    ensures |FrameBytes(f)| == |f.nonce| + 4 + |f.blob|
  {
  }

  /** A frame cut short does not parse. */
  lemma CutFrameFails(f: Frame, maxLen: nat, k: nat)
    requires WellSized(f, maxLen) && k < |FrameBytes(f)|
    ensures ParseFrame(FrameBytes(f)[..k], maxLen) == Failed(Io)
  {
    var s := FrameBytes(f);
    FrameSlices(f.nonce, LE(|f.blob|, 4), f.blob, []);
    assert f.nonce + LE(|f.blob|, 4) + f.blob + [] == s;
    if k >= 16 {
      assert s[..k][12..16] == s[12..16];
      U32RoundTrip(|f.blob|);
    }
  }

  /** A frame whose length field is out of range is tampered with, however long the stream is. */
  lemma BadLengthIsTampered(nonce: bytes, len: nat, rest: bytes, maxLen: nat)
    requires |nonce| == 12 && len < 0x1_0000_0000 && (len < 16 || len > maxLen)
    ensures ParseFrame(nonce + LE(len, 4) + rest, maxLen) == Failed(Tampered)
  {
    U32RoundTrip(len);
    var s := nonce + LE(len, 4) + rest;
    assert s[12..16] == LE(len, 4);
  }

  // ----- the payload -----

  function Concat(fs: seq<Frame>): bytes {
    if fs == [] then [] else FrameBytes(fs[0]) + Concat(fs[1..])
  }

  predicate AllWellSized(fs: seq<Frame>) {
    forall i :: 0 <= i < |fs| ==> WellSized(fs[i], MAX_CHUNK_BLOB)
  }

  /** The checker's loop: frames until the end of the file, counted. Only the error it reports for
      a short blob differs from the reader's. */
  function CountFrames(s: bytes): Result<nat>
    decreases |s|
  {
    if s == [] then Ok(0)
    else
      match ParseFrame(s, MAX_CHUNK_BLOB)
      case Failed(e) =>
        Err(if |s| >= 16 then Tampered else Io)
      case Parsed(_, rest) =>
        match CountFrames(rest)
        case Err(e) => Err(e)
        case Ok(n) => Ok(n + 1)
  }

  lemma {:induction false} CountOfConcat(fs: seq<Frame>)
    requires AllWellSized(fs)
    ensures CountFrames(Concat(fs)) == Ok(|fs|)
  {
    if fs == [] {
    } else {
      CountOfConcat(fs[1..]);
      ParseOfFrame(fs[0], Concat(fs[1..]), MAX_CHUNK_BLOB);
      FrameLength(fs[0]);
    }
  }

  /** The frames of an accepted stream. */
  lemma {:induction false} ConcatOfCount(s: bytes) returns (fs: seq<Frame>)
    requires CountFrames(s).Ok?
    ensures AllWellSized(fs) && Concat(fs) == s && CountFrames(s) == Ok(|fs|)
    decreases |s|
  {
    if s == [] {
      fs := [];
    } else {
      var p := ParseFrame(s, MAX_CHUNK_BLOB);
      FrameOfParse(s, MAX_CHUNK_BLOB);
      FrameLength(p.frame);
      var tail := ConcatOfCount(p.rest);
      fs := [p.frame] + tail;
      assert fs[1..] == tail;
    }
  }

  /** The checker accepts exactly the concatenations of well-sized frames, and counts them. */
  lemma AcceptedPayloads(s: bytes, n: nat)
    ensures CountFrames(s) == Ok(n) <==> exists fs :: AllWellSized(fs) && |fs| == n && Concat(fs) == s
  {
    if CountFrames(s) == Ok(n) {
      var fs := ConcatOfCount(s);
    }
    forall fs | AllWellSized(fs) && |fs| == n && Concat(fs) == s ensures CountFrames(s) == Ok(n) {
      CountOfConcat(fs);
    }
  }

  /** Is k the end of one of the frames, or the start of the first? */
  ghost predicate IsBoundary(fs: seq<Frame>, k: nat) {
    exists j :: 0 <= j <= |fs| && k == |Concat(fs[..j])|
  }

  lemma BoundaryStep(fs: seq<Frame>, k: nat)
    requires fs != [] && k >= |FrameBytes(fs[0])| && |FrameBytes(fs[0])| > 0
    ensures IsBoundary(fs, k) <==> IsBoundary(fs[1..], k - |FrameBytes(fs[0])|)
  {
    var n, tail := |FrameBytes(fs[0])|, fs[1..];
    forall j | 0 <= j <= |tail| ensures |Concat(fs[..j + 1])| == n + |Concat(tail[..j])| {
      assert fs[..j + 1][1..] == tail[..j];
    }
    if j :| 0 <= j <= |fs| && k == |Concat(fs[..j])| {
      assert j > 0;
      assert k - n == |Concat(tail[..j - 1])|;
    }
    if j :| 0 <= j <= |tail| && k - n == |Concat(tail[..j])| {
      assert k == |Concat(fs[..j + 1])|;
    }
  }

  lemma {:induction false} BoundaryInside(fs: seq<Frame>, k: nat)
    requires fs != [] && 0 < k < |FrameBytes(fs[0])|
    ensures !IsBoundary(fs, k)
  {
  }

  /** Of a finished payload the checker accepts a prefix exactly when the cut is a frame boundary. */
  lemma {:induction false} AcceptedPrefixes(fs: seq<Frame>, k: nat)
    requires AllWellSized(fs) && k <= |Concat(fs)|
    ensures CountFrames(Concat(fs)[..k]).Ok? <==> IsBoundary(fs, k)
    decreases |fs|
  {
    if k == 0 {
      assert Concat(fs)[..0] == [] && Concat(fs[..0]) == [];
    } else {
      var f, tail := fs[0], fs[1..];
      FrameLength(f);
      var n := |FrameBytes(f)|;
      if k < n {
        assert Concat(fs)[..k] == FrameBytes(f)[..k];
        CutFrameFails(f, MAX_CHUNK_BLOB, k);
        BoundaryInside(fs, k);
      } else {
        assert Concat(fs)[..k] == FrameBytes(f) + Concat(tail)[..k - n];
        ParseOfFrame(f, Concat(tail)[..k - n], MAX_CHUNK_BLOB);
        AcceptedPrefixes(tail, k - n);
        BoundaryStep(fs, k);
      }
    }
  }

  /** What the checker says of a stream that ends inside a frame: an input error if the cut is before
      the end of the length field, tampering if it is in the blob. */
  lemma {:induction false} CutStreamError(fs: seq<Frame>, f: Frame, k: nat)
    requires AllWellSized(fs) && WellSized(f, MAX_CHUNK_BLOB) && 0 < k < |FrameBytes(f)|
    ensures CountFrames(Concat(fs) + FrameBytes(f)[..k]) == Err(if k < 16 then Io else Tampered)
  {
    var s := FrameBytes(f)[..k];
    if fs == [] {
      assert Concat(fs) + s == s;
      CutFrameFails(f, MAX_CHUNK_BLOB, k);
    } else {
      CutStreamError(fs[1..], f, k);
      FrameThenMore(fs, s);
    }
  }

  lemma FrameThenMore(fs: seq<Frame>, s: bytes)
    requires fs != [] && AllWellSized(fs) && CountFrames(Concat(fs[1..]) + s).Err?
    ensures CountFrames(Concat(fs) + s) == CountFrames(Concat(fs[1..]) + s)
  {
    hide FrameBytes, Concat;
    assert Concat(fs) == FrameBytes(fs[0]) + Concat(fs[1..]) by {
      ConcatStep(fs);
    }
    assert Concat(fs) + s == FrameBytes(fs[0]) + (Concat(fs[1..]) + s);
    ParseOfFrame(fs[0], Concat(fs[1..]) + s, MAX_CHUNK_BLOB);
    FrameLength(fs[0]);
  }

  lemma ConcatStep(fs: seq<Frame>)
    requires fs != []
    ensures Concat(fs) == FrameBytes(fs[0]) + Concat(fs[1..])
  {
  }

  /** And a length field out of range is tampering. */
  lemma {:induction false} BadLengthError(fs: seq<Frame>, nonce: bytes, len: nat, rest: bytes)
    requires AllWellSized(fs) && |nonce| == 12 && len < 0x1_0000_0000 && (len < 16 || len > 1048592)
    ensures CountFrames(Concat(fs) + (nonce + LE(len, 4) + rest)) == Err(Tampered)
  {
    var s := nonce + LE(len, 4) + rest;
    if fs == [] {
      assert Concat(fs) + s == s;
      BadLengthIsTampered(nonce, len, rest, MAX_CHUNK_BLOB);
    } else {
      BadLengthError(fs[1..], nonce, len, rest);
      FrameThenMore(fs, s);
    }
  }
}
