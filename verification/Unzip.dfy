/**
  Reading zip files in chunks: the backward search for the record at the end of
  the central directory, and the buffered reader of stored entries.
 */
module Unzip {
  import opened Words

  const BUFREADCOMMENT := 0x400
  const MAX_BACK := 0xffff
  const UNZ_BUFSIZE := 16384

  const END_OF_CENTRAL_DIR: seq<byte> := [0x50, 0x4b, 0x05, 0x06]
  const ZIP64_LOCATOR: seq<byte> := [0x50, 0x4b, 0x06, 0x07]

  // ----- the search

  predicate HitAt(file: seq<byte>, signature: seq<byte>, p: nat)
    requires |signature| == 4
  {
    && p + 4 <= |file|
    && file[p] == signature[0] && file[p + 1] == signature[1] && file[p + 2] == signature[2]
        && file[p + 3] == signature[3]
  }

  /** Where the part of the file that is searched begins. */
  function SearchFrom(file: seq<byte>): nat {
    |file| - Min(MAX_BACK, |file|)
  }

  /** The simple search: the last hit from offset p down, with 0 both for the start of the file and for none. */
  function LastHit(file: seq<byte>, signature: seq<byte>, p: nat): (r: nat)
    requires |signature| == 4
    decreases p
  {
    if p == 0 || p < SearchFrom(file) then 0
    else if HitAt(file, signature, p) then p
    else LastHit(file, signature, p - 1)
  }

  /** The simple search finds the greatest hit but the one at the start of the file. */
  lemma {:induction false} LastHitIsLast(file: seq<byte>, signature: seq<byte>, p: nat)
    requires |signature| == 4
    ensures
      var r := LastHit(file, signature, p);
      && (r != 0 ==> SearchFrom(file) <= r <= p && HitAt(file, signature, r))
      && forall q :: r < q <= p && SearchFrom(file) <= q ==> !HitAt(file, signature, q)
    decreases p
  {
    if p > 0 {
      LastHitIsLast(file, signature, p - 1);
    }
  }

  /** The answer tells whether there is a hit exactly when the only one is not at the start of the file. */
  lemma FoundOrNot(file: seq<byte>, signature: seq<byte>)
    requires |signature| == 4
    ensures
      (LastHit(file, signature, |file|) != 0 <==> exists p: nat :: SearchFrom(file) <= p && HitAt(file, signature, p))
      <==> !(SearchFrom(file) == 0 && HitAt(file, signature, 0)
             && forall p: nat :: p > 0 ==> !HitAt(file, signature, p))
  {
    LastHitIsLast(file, signature, |file|);
    var r := LastHit(file, signature, |file|);
    if p: nat :| SearchFrom(file) <= p && HitAt(file, signature, p) && p > 0 {
      assert r != 0;
    }
    if r != 0 {
      assert HitAt(file, signature, r);
    }
  }

  /**
    What this costs: an archive whose record at offset at, of 22 bytes and a
    comment behind them, is its last hit is found exactly when it does not begin
    the file and the comment is at least 22 bytes short of the longest.
   */
  lemma LongCommentsLost(file: seq<byte>, at: nat, comment: nat)
    requires comment <= 0xffff && |file| == at + 22 + comment
    requires HitAt(file, END_OF_CENTRAL_DIR, at)
    requires forall q: nat :: q > at ==> !HitAt(file, END_OF_CENTRAL_DIR, q)
    ensures
      var r := LastHit(file, END_OF_CENTRAL_DIR, |file|);
      if at > 0 && comment <= 65513 then r == at > 0 else r == 0
  {
    LastHitIsLast(file, END_OF_CENTRAL_DIR, |file|);
  }

  /** So a record that does not begin its file is lost behind a comment of 65514 bytes, which it may have. */
  lemma CommentOf65514(file: seq<byte>)
    requires file == [0] + [0x50, 0x4b, 0x05, 0x06] + seq(18 + 65514, _ => 0)
    ensures HitAt(file, END_OF_CENTRAL_DIR, 1)
    ensures LastHit(file, END_OF_CENTRAL_DIR, |file|) == 0
    ensures LastHit(file[..|file| - 1], END_OF_CENTRAL_DIR, |file| - 1) == 1
  {
    forall q: nat | q > 1
      ensures !HitAt(file, END_OF_CENTRAL_DIR, q) && !HitAt(file[..|file| - 1], END_OF_CENTRAL_DIR, q)
    {
      assert q < |file| ==> file[q] != END_OF_CENTRAL_DIR[0];
    }
    LongCommentsLost(file, 1, 65514);
    LongCommentsLost(file[..|file| - 1], 1, 65513);
  }

  /** An archive without entries is its record and nothing else, and is not recognised. */
  lemma EmptyArchiveNotFound(file: seq<byte>)
    requires file == [0x50, 0x4b, 0x05, 0x06] + seq(18, _ => 0)
    ensures HitAt(file, END_OF_CENTRAL_DIR, 0) && SearchFrom(file) == 0
    ensures LastHit(file, END_OF_CENTRAL_DIR, |file|) == 0
  {
    FoundOrNot(file, END_OF_CENTRAL_DIR);
    forall p: nat | p > 0
      ensures !HitAt(file, END_OF_CENTRAL_DIR, p)
    {
      assert p < |file| ==> file[p] != END_OF_CENTRAL_DIR[0];
    }
  }

  lemma {:induction false} LastHitFrom(file: seq<byte>, signature: seq<byte>, p: nat, q: nat)
    requires |signature| == 4 && q <= p
    requires forall k :: q < k <= p && SearchFrom(file) <= k ==> !HitAt(file, signature, k)
    ensures LastHit(file, signature, p) == LastHit(file, signature, q)
    decreases p
  {
    if q < p {
      if p < SearchFrom(file) {
        LastHitBelow(file, signature, q);
      } else {
        LastHitFrom(file, signature, p - 1, q);
      }
    }
  }

  lemma LastHitBelow(file: seq<byte>, signature: seq<byte>, q: nat)
    requires |signature| == 4 && q < SearchFrom(file)
    ensures LastHit(file, signature, q) == 0
  {
  }

  /** ZSEEK64 and ZREAD64: size bytes from pos on, into the start of buf. */
  method ReadFile(file: seq<byte>, pos: nat, buf: array<byte>, size: nat)
    requires pos + size <= |file| && size <= buf.Length
    modifies buf
    ensures buf[..size] == file[pos..pos + size] && buf[size..] == old(buf[size..])
  {
    var i := 0;
    while i < size
      invariant 0 <= i <= size
      invariant forall k :: 0 <= k < i ==> buf[k] == file[pos + k]
      invariant forall k :: size <= k < buf.Length ==> buf[k] == old(buf[k])
    {
      buf[i] := file[pos + i];
      i := i + 1;
    }
  }

  /** The inner loop: the last hit in the first size bytes of the buffer. */
  method ScanBuffer(buf: array<byte>, size: nat, signature: seq<byte>, ghost file: seq<byte>, ghost pos: nat)
    returns (found: bool, at: nat)
    requires |signature| == 4 && 4 <= size <= buf.Length
    requires pos + size <= |file| && buf[..size] == file[pos..pos + size]
    ensures found ==> at + 4 <= size && HitAt(file, signature, pos + at)
    ensures forall q :: (if found then pos + at < q else pos <= q) && q + 4 <= pos + size ==> !HitAt(file, signature, q)
  {
    found, at := false, 0;
    var i := size - 3;
    while i > 0
      invariant 0 <= i <= size - 3
      invariant forall q :: pos + i <= q && q + 4 <= pos + size ==> !HitAt(file, signature, q)
    {
      i := i - 1;
      forall k | i <= k < i + 4
        ensures buf[k] == file[pos + k]
      {
        assert buf[..size][k] == file[pos..pos + size][k];
      }
      if buf[i] == signature[0] && buf[i + 1] == signature[1] && buf[i + 2] == signature[2]
          && buf[i + 3] == signature[3] {
        return true, i;
      }
    }
  }

  /** The search that both records are found with: overlapping windows find what the simple search finds. */
  method SearchBackwards(file: seq<byte>, signature: seq<byte>) returns (posFound: nat)
    requires |signature| == 4
    ensures posFound == LastHit(file, signature, |file|)
  {
    hide HitAt;
    posFound := 0;
    var sizeFile := |file|;
    var maxBack := MAX_BACK;
    if maxBack > sizeFile {
      maxBack := sizeFile;
    }
    var buf := new byte[BUFREADCOMMENT + 4];
    var backRead := 4;
    NoRoom(file, signature);
    while backRead < maxBack
      invariant 4 <= backRead && (backRead <= maxBack || (backRead == 4 && maxBack < 4))
      invariant forall q :: sizeFile <= q + backRead && (backRead == 4 ==> sizeFile < q + 4) && 0 < q ==>
                  !HitAt(file, signature, q)
    {
      if backRead + BUFREADCOMMENT > maxBack {
        backRead := maxBack;
      } else {
        backRead := backRead + BUFREADCOMMENT;
      }
      var readPos := sizeFile - backRead;
      var readSize := if BUFREADCOMMENT + 4 < sizeFile - readPos then BUFREADCOMMENT + 4 else sizeFile - readPos;
      ReadFile(file, readPos, buf, readSize);
      var found, i := ScanBuffer(buf, readSize, signature, file, readPos);
      if found {
        posFound := readPos + i;
      }
      if posFound != 0 {
        LastHitFrom(file, signature, |file|, posFound);
        return;
      }
    }
    if maxBack > 4 {
      LastHitFrom(file, signature, |file|, SearchFrom(file));
      StopsThere(file, signature);
    } else {
      LastHitFrom(file, signature, |file|, 0);
    }
  }

  /** The end of central directory record. */
  method SearchCentralDir(file: seq<byte>) returns (posFound: nat)
    ensures posFound == LastHit(file, [0x50, 0x4b, 0x05, 0x06], |file|)
  {
    posFound := SearchBackwards(file, END_OF_CENTRAL_DIR);
  }

  /** The Zip64 end of central directory locator, as far as the search goes. */
  method SearchCentralDir64(file: seq<byte>) returns (posFound: nat)
    ensures posFound == LastHit(file, [0x50, 0x4b, 0x06, 0x07], |file|)
  {
    posFound := SearchBackwards(file, ZIP64_LOCATOR);
  }

  lemma NoRoom(file: seq<byte>, signature: seq<byte>)
    requires |signature| == 4
    ensures forall q: nat :: |file| < q + 4 ==> !HitAt(file, signature, q)
  {
  }

  lemma StopsThere(file: seq<byte>, signature: seq<byte>)
    requires |signature| == 4
    requires SearchFrom(file) > 0 ==> !HitAt(file, signature, SearchFrom(file))
    ensures LastHit(file, signature, SearchFrom(file)) == 0
  {
    if SearchFrom(file) > 0 {
      LastHitBelow(file, signature, SearchFrom(file) - 1);
    }
  }

  // ----- stored entries

  /** crc32 as a fold of an unspecified step over the bytes. */
  ghost function Fold(step: (uint32, byte) -> uint32, crc: uint32, bytes: seq<byte>): uint32
    decreases |bytes|
  {
    if bytes == [] then crc else step(Fold(step, crc, bytes[..|bytes| - 1]), bytes[|bytes| - 1])
  }

  lemma {:induction false} FoldSum(step: (uint32, byte) -> uint32, crc: uint32, a: seq<byte>, b: seq<byte>)
    ensures Fold(step, crc, a + b) == Fold(step, Fold(step, crc, a), b)
    decreases |b|
  {
    if b == [] {
      assert a + b == a;
    } else {
      assert (a + b)[..|a + b| - 1] == a + b[..|b| - 1];
      FoldSum(step, crc, a, b[..|b| - 1]);
    }
  }

  /** A 64-bit unsigned difference. */
  function Minus64(a: nat, b: nat): (r: nat)
    ensures r < 0x1_0000_0000_0000_0000
  {
    (a - b) % 0x1_0000_0000_0000_0000
  }

  /** A 32-bit unsigned count returned as an int. */
  function AsInt(n: uint32): int {
    if n < 0x8000_0000 then n else n - 0x1_0000_0000
  }

  /** What a reader has still to deliver: the rest of the entry's data, and how much of it counts unless raw. */
  datatype Entry = Entry(data: seq<byte>, uncompressed: nat, raw: bool, crc: uint32)

  /** The number of bytes that one call delivers. */
  function Delivers(e: Entry, len: nat): nat {
    Min(len, if e.raw then |e.data| else Min(e.uncompressed, |e.data|))
  }

  /** A reader that has delivered n bytes more. */
  ghost function AfterBytes(step: (uint32, byte) -> uint32, e: Entry, n: nat): Entry
    requires n <= |e.data|
  {
    Entry(e.data[n..], Minus64(e.uncompressed, n), e.raw, Fold(step, e.crc, e.data[..n]))
  }

  ghost function AfterCall(step: (uint32, byte) -> uint32, e: Entry, len: nat): Entry {
    AfterBytes(step, e, Delivers(e, len))
  }

  ghost function AfterCalls(step: (uint32, byte) -> uint32, e: Entry, lens: seq<nat>): Entry
    decreases |lens|
  {
    if lens == [] then e else AfterCall(step, AfterCalls(step, e, lens[..|lens| - 1]), lens[|lens| - 1])
  }

  /** Everything the calls deliver, one after another. */
  ghost function Delivered(step: (uint32, byte) -> uint32, e: Entry, lens: seq<nat>): seq<byte>
    decreases |lens|
  {
    if lens == [] then []
    else
      var before := AfterCalls(step, e, lens[..|lens| - 1]);
      Delivered(step, e, lens[..|lens| - 1]) + before.data[..Delivers(before, lens[|lens| - 1])]
  }

  /**
    However an entry is read, the calls deliver consecutive slices of it: what
    they deliver together, what is left and the checksum depend only on the sum
    of the lengths asked for.
   */
  lemma {:induction false} CallsAreOneCall(step: (uint32, byte) -> uint32, e: Entry, lens: seq<nat>)
    requires e.uncompressed < 0x1_0000_0000_0000_0000
    ensures Delivered(step, e, lens) == e.data[..Delivers(e, Sum(lens))]
    ensures AfterCalls(step, e, lens) == AfterCall(step, e, Sum(lens))
    decreases |lens|
  {
    var n := |lens|;
    if n == 0 {
      assert e.data[..0] == [] && e.data[0..] == e.data;
    } else {
      CallsAreOneCall(step, e, lens[..n - 1]);
      TwoCalls(step, e, Sum(lens[..n - 1]), lens[n - 1]);
    }
  }

  lemma MinusTwice(u: nat, m: nat, n: nat)
    ensures Minus64(Minus64(u, m), n) == Minus64(u, m + n)
    ensures m <= u < 0x1_0000_0000_0000_0000 ==> Minus64(u, m) == u - m
  {
  }

  lemma TwoSlices(s: seq<byte>, m: nat, n: nat)
    requires m + n <= |s|
    ensures s[m..][..n] == s[m..m + n] && s[m..][n..] == s[m + n..]
    ensures s[..m] + s[m..][..n] == s[..m + n]
  {
  }

  lemma MoreBytes(step: (uint32, byte) -> uint32, e: Entry, m: nat, n: nat)
    requires m + n <= |e.data|
    ensures AfterBytes(step, AfterBytes(step, e, m), n) == AfterBytes(step, e, m + n)
    ensures e.data[..m] + e.data[m..][..n] == e.data[..m + n]
  {
    hide Minus64, Fold;
    MinusTwice(e.uncompressed, m, n);
    TwoSlices(e.data, m, n);
    FoldSum(step, e.crc, e.data[..m], e.data[m..][..n]);
  }

  lemma BytesLeft(step: (uint32, byte) -> uint32, e: Entry, n: nat)
    requires n <= |e.data|
    ensures |AfterBytes(step, e, n).data| == |e.data| - n
  {
  }

  lemma NoBytes(step: (uint32, byte) -> uint32, e: Entry)
    requires e.uncompressed < 0x1_0000_0000_0000_0000
    ensures AfterBytes(step, e, 0) == e
  {
  }

  lemma TwoCalls(step: (uint32, byte) -> uint32, e: Entry, a: nat, b: nat)
    requires e.uncompressed < 0x1_0000_0000_0000_0000
    ensures
      var between := AfterCall(step, e, a);
      && Delivers(e, a) + Delivers(between, b) == Delivers(e, a + b)
      && e.data[..Delivers(e, a)] + between.data[..Delivers(between, b)] == e.data[..Delivers(e, a + b)]
      && AfterCall(step, between, b) == AfterCall(step, e, a + b)
  {
    hide Minus64, Fold;
    var m := Delivers(e, a);
    MinusTwice(e.uncompressed, m, 0);
    MoreBytes(step, e, m, Delivers(AfterCall(step, e, a), b));
  }

  /** When the sizes agree, reading to the end delivers the whole entry, and its checksum. */
  lemma WholeEntry(step: (uint32, byte) -> uint32, e: Entry, lens: seq<nat>)
    requires e.uncompressed == |e.data| < 0x1_0000_0000_0000_0000 && Sum(lens) >= |e.data|
    ensures Delivered(step, e, lens) == e.data
    ensures AfterCalls(step, e, lens) == Entry([], 0, e.raw, Fold(step, e.crc, e.data))
  {
    hide Fold, Delivered, AfterCalls, Sum;
    CallsAreOneCall(step, e, lens);
    assert Delivers(e, Sum(lens)) == |e.data|;
    assert e.data[..|e.data|] == e.data && e.data[|e.data|..] == [];
  }

  /** Otherwise a raw reader delivers all that is stored, and any other no more than the uncompressed size. */
  lemma RawOrNot(step: (uint32, byte) -> uint32, e: Entry, lens: seq<nat>)
    requires e.uncompressed < 0x1_0000_0000_0000_0000 && Sum(lens) >= |e.data|
    ensures Delivered(step, e, lens)
         == if e.raw || |e.data| <= e.uncompressed then e.data else e.data[..e.uncompressed]
  {
    hide Fold, Delivered, AfterCalls, Sum;
    CallsAreOneCall(step, e, lens);
    assert e.data[..|e.data|] == e.data;
  }

  /** A buffer with the first n bytes of data over what it held. */
  ghost function Overlaid(data: seq<byte>, was: seq<byte>, n: nat): seq<byte>
    requires n <= |data| && n <= |was|
  {
    data[..n] + was[n..]
  }

  lemma OverlaidMore(data: seq<byte>, was: seq<byte>, m: nat, n: nat)
    requires m + n <= |data| && m + n <= |was|
    ensures
      var buf := Overlaid(data, was, m);
      |buf| == |was| && buf[..m] + data[m..][..n] + buf[m + n..] == Overlaid(data, was, m + n)
  {
  }

  lemma OverlaidAt(data: seq<byte>, was: seq<byte>)
    ensures Overlaid(data, was, 0) == was
    ensures forall n: nat :: n <= |data| && n <= |was| ==> Overlaid(data, was, n) == data[..n] + was[n..]
  {
  }

  /** The next n bytes of the file, or as many as there are. */
  function Ahead(file: seq<byte>, pos: nat, n: nat): (r: seq<byte>)
    ensures pos + n <= |file| ==> r == file[pos..pos + n]
    ensures pos <= |file| < pos + n ==> r == file[pos..]
    ensures pos > |file| ==> r == []
  {
    file[Min(pos, |file|)..Min(pos + n, |file|)]
  }

  lemma AheadSplit(file: seq<byte>, pos: nat, n: nat, k: nat)
    requires k <= n && pos + k <= |file|
    ensures Ahead(file, pos, n) == file[pos..pos + k] + Ahead(file, pos + k, n - k)
  {
  }

  lemma BufferSplit(buffer: seq<byte>, from: nat, n: nat, more: seq<byte>, k: nat)
    requires k <= n && from + n <= |buffer|
    ensures (buffer[from..from + n] + more)[..k] == buffer[from..from + k]
    ensures (buffer[from..from + n] + more)[k..] == buffer[from + k..from + n] + more
  {
  }

  /** Where a read from the file fails: result codes of the source. */
  const UNZ_ERRNO := -1

  /** The reader of a stored entry, method 0; the file may end before the entry does. */
  class StoredReader {
    const file: seq<byte>
    const step: (uint32, byte) -> uint32
    const raw: bool
    const readBuffer: array<byte>

    var posInFile: nat
    var restCompressed: nat
    var restUncompressed: nat
    var nextIn: nat
    var availIn: nat
    var crc: uint32

    ghost predicate Valid()
      reads this`restUncompressed, this`nextIn, this`availIn
    {
      && readBuffer.Length == UNZ_BUFSIZE && nextIn + availIn <= UNZ_BUFSIZE
      && restUncompressed < 0x1_0000_0000_0000_0000
    }

    ghost predicate Truncated()
      reads this`posInFile, this`restCompressed
    {
      posInFile + restCompressed > |file|
    }

    /** The bytes buffered, and those of the entry still in the file. */
    ghost function Rest(): seq<byte>
      requires Valid()
      reads this`restUncompressed, this`nextIn, this`availIn, this`posInFile, this`restCompressed, readBuffer
    {
      readBuffer[nextIn..nextIn + availIn] + Ahead(file, posInFile, restCompressed)
    }

    ghost function View(): Entry
      requires Valid()
      reads this, readBuffer
    {
      Entry(Rest(), restUncompressed, raw, crc)
    }

    constructor (file: seq<byte>, step: (uint32, byte) -> uint32, raw: bool, start: nat, compressed: nat,
                 uncompressed: nat)
      requires uncompressed < 0x1_0000_0000_0000_0000
      ensures Valid() && fresh(readBuffer) && this.file == file && this.step == step
      ensures Truncated() <==> start + compressed > |file|
      ensures View() == Entry(Ahead(file, start, compressed), uncompressed, raw, 0)
      ensures start + compressed <= |file| ==> Rest() == file[start..start + compressed]
      ensures availIn == 0 && restCompressed == compressed
    {
      this.file, this.step, this.raw := file, step, raw;
      readBuffer := new byte[UNZ_BUFSIZE];
      posInFile, restCompressed, restUncompressed := start, compressed, uncompressed;
      nextIn, availIn, crc := 0, 0, 0;
    }

    /** Fill the empty read buffer from the file. */
    method Fill() returns (ok: bool)
      requires Valid() && availIn == 0 && restCompressed > 0
      modifies this`posInFile, this`restCompressed, this`nextIn, this`availIn, readBuffer
      ensures Valid() && posInFile + restCompressed == old(posInFile + restCompressed)
      ensures ok ==> availIn > 0 && restCompressed + availIn == old(restCompressed)
      ensures !ok ==> Truncated() && availIn == 0
      ensures Rest() == old(Rest())
    {
      hide Ahead;
      var readThis := UNZ_BUFSIZE;
      if restCompressed < readThis {
        readThis := restCompressed;
      }
      if posInFile + readThis > |file| {
        return false;
      }
      AheadSplit(file, posInFile, restCompressed, readThis);
      ReadFile(file, posInFile, readBuffer, readThis);
      posInFile := posInFile + readThis;
      restCompressed := restCompressed - readThis;
      nextIn, availIn := 0, readThis;
      ok := true;
    }

    /** Copy from the read buffer to the caller's, and account for it. */
    method Copy(buf: array<byte>, nextOut: nat, doCopy: nat)
      requires Valid() && doCopy <= availIn && nextOut + doCopy <= buf.Length && buf != readBuffer
      modifies this`restUncompressed, this`nextIn, this`availIn, this`crc, buf
      ensures Valid() && availIn == old(availIn) - doCopy
      ensures doCopy <= |old(Rest())| && Rest() == old(Rest())[doCopy..]
      ensures buf[..] == old(buf[..nextOut]) + old(Rest())[..doCopy] + old(buf[nextOut + doCopy..])
      ensures restUncompressed == Minus64(old(restUncompressed), doCopy)
      ensures crc == Fold(step, old(crc), old(Rest())[..doCopy])
    {
      hide Minus64, Fold, Ahead;
      BufferSplit(readBuffer[..], nextIn, availIn, Ahead(file, posInFile, restCompressed), doCopy);
      CopyBytes(buf, nextOut, doCopy);
      crc := Crc32(buf, nextOut, doCopy);
      restUncompressed := Minus64(restUncompressed, doCopy);
      nextIn, availIn := nextIn + doCopy, availIn - doCopy;
    }

    method CopyBytes(buf: array<byte>, nextOut: nat, n: nat)
      requires nextIn + n <= readBuffer.Length && nextOut + n <= buf.Length && buf != readBuffer
      modifies buf
      ensures buf[..] == old(buf[..nextOut]) + readBuffer[nextIn..nextIn + n] + old(buf[nextOut + n..])
      ensures buf[nextOut..nextOut + n] == readBuffer[nextIn..nextIn + n]
    {
      ghost var chunk := readBuffer[nextIn..nextIn + n];
      for i := 0 to n
        invariant buf[..nextOut + i] == old(buf[..nextOut]) + chunk[..i]
        invariant buf[nextOut + n..] == old(buf[nextOut + n..])
      {
        assert chunk[i] == readBuffer[nextIn + i];
        buf[nextOut + i] := readBuffer[nextIn + i];
        assert buf[..nextOut + i + 1] == buf[..nextOut + i] + [chunk[i]];
      }
    }

    method Crc32(buf: array<byte>, from: nat, n: nat) returns (r: uint32)
      requires from + n <= buf.Length
      ensures r == Fold(step, crc, buf[from..from + n])
    {
      r := crc;
      for i := 0 to n
        invariant r == Fold(step, crc, buf[from..from + i])
      {
        assert buf[from..from + i + 1][..i] == buf[from..from + i];
        r := step(r, buf[from + i]);
      }
    }

    /** One copy of the stored method's branch, of as much as is buffered and wanted. */
    method DeliverStored(buf: array<byte>, nextOut: nat, availOut: nat, ghost e: Entry, ghost was: seq<byte>)
      returns (doCopy: nat)
      requires Valid() && availIn > 0 && availOut > 0 && nextOut + availOut <= buf.Length == |was| && buf != readBuffer
      requires nextOut <= |e.data| && View() == AfterBytes(step, e, nextOut)
      requires buf[..] == Overlaid(e.data, was, nextOut)
      modifies this`restUncompressed, this`nextIn, this`availIn, this`crc, buf
      ensures Valid() && 0 < doCopy <= availOut && nextOut + doCopy <= |e.data|
      ensures View() == AfterBytes(step, e, nextOut + doCopy) && buf[..] == Overlaid(e.data, was, nextOut + doCopy)
    {
      hide Minus64, Fold, Rest;
      doCopy := if availOut < availIn then availOut else availIn;
      RestLength();
      MoreBytes(step, e, nextOut, doCopy);
      OverlaidMore(e.data, was, nextOut, doCopy);
      Copy(buf, nextOut, doCopy);
    }

    /**
      unzReadCurrentFile for a stored entry.  The ghost result counts the bytes
      put into buf, also when reading the file fails after some of them.
     */
    method Read(buf: array<byte>, len: uint32) returns (result: int, ghost n: nat)
      requires Valid() && len <= buf.Length && buf != readBuffer
      modifies this, readBuffer, buf
      ensures Valid() && Truncated() == old(Truncated())
      ensures n <= Delivers(old(View()), len) && View() == AfterBytes(step, old(View()), n)
      ensures buf[..] == old(Rest())[..n] + old(buf[n..])
      ensures result == AsInt(n) || (result == -1 && Truncated())
      ensures !Truncated() ==> n == Delivers(old(View()), len)
    {
      hide Minus64, Fold, Rest, Overlaid, AfterBytes;
      n := 0;
      ghost var e, was := View(), buf[..];
      NoBytes(step, e);
      OverlaidAt(e.data, was);
      RestLength();
      if len == 0 {
        return 0, 0;
      }
      var availOut: nat := len;
      if len > restUncompressed && !raw {
        availOut := restUncompressed;
      }
      if len > restCompressed + availIn && raw {
        availOut := restCompressed + availIn;
      }
      var nextOut, failed := DeliverAll(buf, availOut, e, was);
      n := nextOut;
      result := if failed then UNZ_ERRNO else AsInt(nextOut);
    }

    /** The loop of a call, which wants so many bytes. */
    method DeliverAll(buf: array<byte>, want: nat, ghost e: Entry, ghost was: seq<byte>)
      returns (nextOut: nat, failed: bool)
      requires Valid() && want <= buf.Length == |was| && buf != readBuffer
      requires View() == AfterBytes(step, e, 0) && buf[..] == Overlaid(e.data, was, 0)
      modifies this, readBuffer, buf
      ensures Valid() && posInFile + restCompressed == old(posInFile + restCompressed)
      ensures nextOut <= want && nextOut <= |e.data|
      ensures View() == AfterBytes(step, e, nextOut) && buf[..] == Overlaid(e.data, was, nextOut)
      ensures failed ==> Truncated()
      ensures !failed ==> nextOut == want || nextOut == |e.data|
    {
      hide Minus64, Fold, Rest, Overlaid, AfterBytes;
      failed, nextOut := false, 0;
      var availOut := want;
      while availOut > 0
        invariant Valid() && nextOut + availOut == want && nextOut <= |e.data|
        invariant posInFile + restCompressed == old(posInFile + restCompressed)
        invariant buf[..] == Overlaid(e.data, was, nextOut) && View() == AfterBytes(step, e, nextOut)
      {
        if availIn == 0 && restCompressed > 0 {
          var ok := Fill();
          if !ok {
            return nextOut, true;
          }
        }
        if availIn == 0 && restCompressed == 0 {
          RestLength();
          BytesLeft(step, e, nextOut);
          return;
        }
        var doCopy := DeliverStored(buf, nextOut, availOut, e, was);
        nextOut, availOut := nextOut + doCopy, availOut - doCopy;
      }
    }

    lemma RestLength()
      requires Valid()
      ensures availIn <= |Rest()| <= availIn + restCompressed
      ensures !Truncated() ==> |Rest()| == availIn + restCompressed
    {
    }
  }
}
