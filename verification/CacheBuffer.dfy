/** The write-back buffer: one aligned range of a disk file, fetched lazily page by page and
    written back block by block. */
module CacheBuffer {
  import opened IntMod

  type Byte = char

  datatype BlockStatus = Clean | Dirty | Processing
  datatype PageStatus = Unfetched | Fetched
  datatype Reply<T> = Unavailable | Done(value: T)

  /** Position x lies in bucket q of n positions each. */
  lemma InBucket(x: nat, q: int, n: nat)
    requires n > 0
    ensures x / n == q <==> q * n <= x < q * n + n
  {
    if q * n <= x < q * n + n { DivMod(x, q, x - q * n, n); }
    assert x == x / n * n + x % n;
  }

  predicate IsMultiple(x: int, n: nat)
    requires n > 0
  {
    x % n == 0
  }

  lemma BucketCount(x: nat, size: nat, n: nat)
    requires n > 0 && size % n == 0
    ensures x < size <==> x / n < size / n
  {
    var q, m := x / n, size / n;
    assert x == q * n + x % n && size == m * n;
    if q < m { MulNonNegative(m - q - 1, n); } else { MulNonNegative(q - m, n); }
  }

  function Min(a: int, b: int): (r: int)
    ensures r <= a && r <= b && (r == a || r == b)
  {
    if a < b then a else b
  }

  /** Bucket q of n positions reaches the first of positions lo to hi - 1 or a later one. */
  predicate Touched(q: nat, lo: nat, hi: nat, n: nat)
    requires n > 0
  {
    lo / n <= q && q * n < hi
  }

  /** Bucket p of n positions lies within positions lo to hi - 1. */
  predicate Within(p: nat, lo: int, hi: int, n: nat) {
    lo <= p * n && p * n + n <= hi
  }

  /** v with b put in place of as many bytes from position at on. */
  function Splice(v: seq<Byte>, at: nat, b: seq<Byte>): (r: seq<Byte>)
    requires at + |b| <= |v|
    ensures |r| == |v|
    ensures forall i :: 0 <= i < |v| ==> r[i] == if at <= i < at + |b| then b[i - at] else v[i]
  {
    v[..at] + b + v[at + |b|..]
  }

  /** n bytes of v from position at on. */
  function Slice(v: seq<Byte>, at: nat, n: nat): (r: seq<Byte>)
    requires at + n <= |v|
    ensures |r| == n && forall i :: 0 <= i < n ==> r[i] == v[at + i]
  {
    v[at..at + n]
  }

  /** Move goes to another range: everything is written back, then the buffer is moved. */
  datatype Request =
    | Read(size: nat, offset: nat)
    | Write(buf: seq<Byte>, offset: nat)
    | WriteBack
    | Move(offset: nat)

  datatype Outcome = Missed | Bytes(bytes: seq<Byte>) | Written(count: nat) | Finished

  /** A plain file, and the range of it in which requests are served. */
  datatype PlainFile = PlainFile(bytes: seq<Byte>, start: int, len: nat) {
    ghost predicate Valid() {
      start + len <= |bytes|
    }

    predicate Contains(offset: nat) {
      start <= offset < start + len
    }
  }

  /** The start of the range of size bytes around an offset. */
  function RangeStart(offset: nat, size: nat): (start: nat)
    requires size > 0
  {
    RangeAround(offset, size);
    offset / size * size
  }

  lemma RangeStartIs(offset: nat, size: nat)
    requires size > 0
    ensures RangeStart(offset, size) == offset / size * size <= offset < offset / size * size + size
  {
    RangeAround(offset, size);
  }

  /** A range to move to lies inside the file. */
  predicate Fits(q: Request, size: nat, length: nat)
    requires size > 0
  {
    q.Move? ==> RangeStart(q.offset, size) + size <= length
  }

  /** What a plain file answers: the bytes from the offset on that its range has. */
  function Answer(p: PlainFile, q: Request): (r: Outcome)
    requires p.Valid()
    ensures (q.Read? || q.Write?) && !(p.start <= q.offset < p.start + p.len) ==> r == Missed
    ensures q.Read? && p.start <= q.offset < p.start + p.len ==>
      r.Bytes? &&
      |r.bytes| == (if q.offset + q.size <= p.start + p.len then q.size else p.start + p.len - q.offset) &&
      forall i :: 0 <= i < |r.bytes| ==> r.bytes[i] == p.bytes[q.offset + i]
    ensures q.Write? && p.start <= q.offset < p.start + p.len ==>
      r == Written(if q.offset + |q.buf| <= p.start + p.len then |q.buf| else p.start + p.len - q.offset)
    ensures q.WriteBack? || q.Move? ==> r == Finished
  {
    match q
    case Read(size, offset) =>
      if p.Contains(offset) then Bytes(Slice(p.bytes, offset, Min(size, p.start + p.len - offset))) else Missed
    case Write(buf, offset) =>
      if p.Contains(offset) then Written(Min(|buf|, p.start + p.len - offset)) else Missed
    case _ => Finished
  }

  /** The plain file after the request. A write reaches the bytes of its range and no other. */
  function FileAfter(p: PlainFile, size: nat, q: Request): (r: PlainFile)
    requires p.Valid() && size > 0 && Fits(q, size, |p.bytes|)
    ensures r.Valid() && |r.bytes| == |p.bytes|
    ensures q.Write? ==>
      r.start == p.start && r.len == p.len &&
      forall a :: 0 <= a < |p.bytes| ==>
        r.bytes[a] ==
          if p.start <= q.offset <= a < p.start + p.len && a < q.offset + |q.buf| then q.buf[a - q.offset]
          else p.bytes[a]
    ensures q.Move? ==> r == PlainFile(p.bytes, q.offset / size * size, size)
    ensures q.Read? || q.WriteBack? ==> r == p
  {
    match q
    case Write(buf, offset) =>
      if p.Contains(offset) then
        p.(bytes := Splice(p.bytes, offset, buf[..Min(|buf|, p.start + p.len - offset)]))
      else p
    case Move(offset) => PlainFile(p.bytes, RangeStart(offset, size), size)
    case _ => p
  }

  function FileAfterAll(p: PlainFile, size: nat, qs: seq<Request>): (r: PlainFile)
    requires p.Valid() && size > 0 && forall i :: 0 <= i < |qs| ==> Fits(qs[i], size, |p.bytes|)
    ensures r.Valid() && |r.bytes| == |p.bytes|
  {
    if qs == [] then p else FileAfter(FileAfterAll(p, size, qs[..|qs| - 1]), size, qs[|qs| - 1])
  }

  /** Requests are served in the range of the last move. */
  lemma {:induction false} LastMoveStands(p: PlainFile, size: nat, qs: seq<Request>, m: nat)
    requires p.Valid() && size > 0 && forall i :: 0 <= i < |qs| ==> Fits(qs[i], size, |p.bytes|)
    requires m < |qs| && qs[m].Move? && forall i :: m < i < |qs| ==> !qs[i].Move?
    ensures FileAfterAll(p, size, qs).start == qs[m].offset / size * size && FileAfterAll(p, size, qs).len == size
  {
    hide FileAfter, Fits;
    var before := qs[..|qs| - 1];
    assert FileAfterAll(p, size, qs) == FileAfter(FileAfterAll(p, size, before), size, qs[|qs| - 1]);
    if m < |before| { LastMoveStands(p, size, before, m); }
  }

  /** Without a move, requests are served in the range that there was. */
  lemma {:induction false} RangeStands(p: PlainFile, size: nat, qs: seq<Request>)
    requires p.Valid() && size > 0 && forall i :: 0 <= i < |qs| ==> Fits(qs[i], size, |p.bytes|)
    requires forall i :: 0 <= i < |qs| ==> !qs[i].Move?
    ensures FileAfterAll(p, size, qs).start == p.start && FileAfterAll(p, size, qs).len == p.len
  {
    hide FileAfter, Fits;
    if qs != [] { RangeStands(p, size, qs[..|qs| - 1]); }
  }

  /** Byte a of the file is that of the last write that covers it, if its range had a. */
  lemma {:induction false} LastWriteStands(p: PlainFile, size: nat, qs: seq<Request>, j: nat, a: nat)
    requires p.Valid() && size > 0 && forall i :: 0 <= i < |qs| ==> Fits(qs[i], size, |p.bytes|)
    requires j < |qs| && qs[j].Write? && qs[j].offset <= a < qs[j].offset + |qs[j].buf|
    requires var q := FileAfterAll(p, size, qs[..j]); q.start <= qs[j].offset && a < q.start + q.len
    requires forall i :: j < i < |qs| && qs[i].Write? ==> !(qs[i].offset <= a < qs[i].offset + |qs[i].buf|)
    ensures a < |p.bytes| && FileAfterAll(p, size, qs).bytes[a] == qs[j].buf[a - qs[j].offset]
  {
    hide FileAfter, Fits;
    var before := qs[..|qs| - 1];
    assert FileAfterAll(p, size, qs) == FileAfter(FileAfterAll(p, size, before), size, qs[|qs| - 1]);
    if j < |before| {
      assert before[..j] == qs[..j];
      LastWriteStands(p, size, before, j, a);
    } else {
      assert before == qs[..j];
    }
  }

  /** A byte that no write covers stays as it was. */
  lemma {:induction false} UnwrittenStands(p: PlainFile, size: nat, qs: seq<Request>, a: nat)
    requires p.Valid() && size > 0 && forall i :: 0 <= i < |qs| ==> Fits(qs[i], size, |p.bytes|)
    requires a < |p.bytes|
    requires forall i :: 0 <= i < |qs| && qs[i].Write? ==> !(qs[i].offset <= a < qs[i].offset + |qs[i].buf|)
    ensures FileAfterAll(p, size, qs).bytes[a] == p.bytes[a]
  {
    hide FileAfter, Fits;
    if qs != [] { UnwrittenStands(p, size, qs[..|qs| - 1], a); }
  }

  /** A read of the range that the write just before it has written answers what was written. */
  lemma ReadAfterWrite(p: PlainFile, size: nat, qs: seq<Request>, m: nat, i: nat)
    requires p.Valid() && size > 0 && forall i :: 0 <= i < |qs| ==> Fits(qs[i], size, |p.bytes|)
    requires m < i < |qs| - 1 && qs[m].Move? && forall j :: m < j < i ==> !qs[j].Move?
    requires qs[i].Write? && qs[i + 1] == Read(|qs[i].buf|, qs[i].offset)
    requires
      var start := qs[m].offset / size * size;
      start <= qs[i].offset < start + size && qs[i].offset + |qs[i].buf| <= start + size
    ensures Answer(FileAfterAll(p, size, qs[..i + 1]), qs[i + 1]) == Bytes(qs[i].buf)
  {
    hide FileAfter, Fits, Answer;
    LastMoveStands(p, size, qs[..i], m);
    assert qs[..i + 1][..i] == qs[..i];
    var q, r := FileAfterAll(p, size, qs[..i]), FileAfterAll(p, size, qs[..i + 1]);
    assert r == FileAfter(q, size, qs[i]);
    assert Answer(r, qs[i + 1]).bytes == qs[i].buf;
  }

  lemma ReadsAfterWrites(p: PlainFile, size: nat, qs: seq<Request>, answers: seq<Outcome>)
    requires p.Valid() && size > 0 && forall i :: 0 <= i < |qs| ==> Fits(qs[i], size, |p.bytes|)
    requires |answers| == |qs|
    requires forall i :: 0 <= i < |qs| ==> answers[i] == Answer(FileAfterAll(p, size, qs[..i]), qs[i])
    ensures forall m, i ::
      0 <= m < i < |qs| - 1 && qs[m].Move? && (forall j :: m < j < i ==> !qs[j].Move?) &&
      qs[i].Write? && qs[i + 1] == Read(|qs[i].buf|, qs[i].offset) &&
      (var start := qs[m].offset / size * size;
       start <= qs[i].offset < start + size && qs[i].offset + |qs[i].buf| <= start + size) ==>
      answers[i + 1] == Bytes(qs[i].buf)
  {
    hide Fits, Answer, FileAfterAll;
    forall m, i |
      0 <= m < i < |qs| - 1 && qs[m].Move? && (forall j :: m < j < i ==> !qs[j].Move?) &&
      qs[i].Write? && qs[i + 1] == Read(|qs[i].buf|, qs[i].offset) &&
      (var start := qs[m].offset / size * size;
       start <= qs[i].offset < start + size && qs[i].offset + |qs[i].buf| <= start + size)
      ensures answers[i + 1] == Bytes(qs[i].buf)
    {
      ReadAfterWrite(p, size, qs, m, i);
    }
  }

  class Buffer {
    const blockSize: nat
    const bufferSize: nat
    const pageSize: nat
    const content: array<Byte>
    const dirtyBlock: array<BlockStatus>
    const pageStatus: array<PageStatus>
    /** The disk file behind the buffer. */
    const file: array<Byte>
    var dirtyBit: BlockStatus
    var startAddress: int
    var contentSize: nat

    /** The sizes of the buffer and of its tables. None of this ever changes. */
    ghost predicate SizesOk() {
      content != file && 0 < blockSize && 0 < pageSize && 0 < bufferSize &&
      IsMultiple(pageSize, blockSize) && IsMultiple(bufferSize, pageSize) && IsMultiple(bufferSize, blockSize) &&
      content.Length == bufferSize && dirtyBlock.Length == Quotient(bufferSize, blockSize) &&
      pageStatus.Length == Quotient(bufferSize, pageSize)
    }

    ghost predicate Shape()
      reads this
    {
      SizesOk() &&
      if contentSize == 0 then startAddress == -1
      else
        contentSize == bufferSize && startAddress >= 0 && IsMultiple(startAddress, bufferSize) &&
        startAddress + bufferSize <= file.Length
    }

    /** The block and the page of position x of the buffer. */
    function Block(x: nat): (b: nat)
      requires SizesOk() && x < bufferSize
      ensures b < dirtyBlock.Length
    {
      BucketCount(x, bufferSize, blockSize);
      x / blockSize
    }

    function Page(x: nat): (p: nat)
      requires SizesOk() && x < bufferSize
      ensures p < pageStatus.Length
    {
      BucketCount(x, bufferSize, pageSize);
      x / pageSize
    }

    /** Clean bytes of fetched pages are those of the file, and only fetched pages are dirty. */
    ghost predicate Valid()
      reads this, content, dirtyBlock, pageStatus, file
    {
      Shape() &&
      (forall x :: 0 <= x < contentSize && pageStatus[Page(x)] == Fetched && dirtyBlock[Block(x)] == Clean ==>
        content[x] == file[startAddress + x]) &&
      (forall x :: 0 <= x < bufferSize && dirtyBlock[Block(x)] != Clean ==> pageStatus[Page(x)] == Fetched) &&
      (forall b :: 0 <= b < dirtyBlock.Length ==> dirtyBlock[b] != Processing) &&
      (dirtyBit == Clean ==> IsClean()) &&
      (contentSize == 0 ==> IsClean() && forall p :: 0 <= p < pageStatus.Length ==> pageStatus[p] == Unfetched)
    }

    ghost predicate IsClean()
      reads this, dirtyBlock
    {
      forall b :: 0 <= b < dirtyBlock.Length ==> dirtyBlock[b] == Clean
    }

    /** What a client sees at position x of the buffer. */
    ghost function Seen(x: nat): Byte
      requires Shape() && x < contentSize
      reads this, content, pageStatus, file
    {
      if pageStatus[Page(x)] == Fetched then content[x] else file[startAddress + x]
    }

    ghost function SeenAll(): (r: seq<Byte>)
      requires Shape()
      reads this, content, pageStatus, file
      ensures |r| == contentSize && forall x :: 0 <= x < |r| ==> r[x] == Seen(x)
    {
      seq(contentSize, x requires 0 <= x < contentSize && Shape() reads this, content, pageStatus, file => Seen(x))
    }

    /** The file as a client of the buffer sees it. */
    ghost function View(): (v: seq<Byte>)
      requires Shape()
      reads this, content, pageStatus, file
      ensures |v| == file.Length
      ensures forall x {:trigger Seen(x)} :: 0 <= x < contentSize ==> v[startAddress + x] == Seen(x)
      ensures forall a :: 0 <= a < |v| && !(startAddress <= a < startAddress + contentSize) ==> v[a] == file[a]
    {
      seq(file.Length, a requires 0 <= a < file.Length && Shape() reads this, content, pageStatus, file =>
        if startAddress <= a < startAddress + contentSize then Seen(a - startAddress) else file[a])
    }

    constructor (blockSize: nat, bufferSize: nat, pageSize: nat, file: array<Byte>)
      requires 0 < blockSize && 0 < pageSize && 0 < bufferSize
      requires pageSize % blockSize == 0 && bufferSize % pageSize == 0
      ensures Valid() && this.file == file && contentSize == 0 && View() == file[..]
      ensures this.blockSize == blockSize && this.bufferSize == bufferSize && this.pageSize == pageSize
      ensures fresh(content) && fresh(dirtyBlock) && fresh(pageStatus)
    {
      this.blockSize, this.bufferSize, this.pageSize, this.file := blockSize, bufferSize, pageSize, file;
      content := new Byte[bufferSize](_ => '\0');
      dirtyBlock := new BlockStatus[bufferSize / blockSize](_ => Clean);
      pageStatus := new PageStatus[bufferSize / pageSize](_ => Unfetched);
      dirtyBit, startAddress, contentSize := Clean, -1, 0;
      new;
      WholeBlocks(blockSize, pageSize, bufferSize);
    }

    predicate ContainOffset(offset: nat)
      reads this
    {
      startAddress <= offset < startAddress + contentSize
    }

    // ---- Fetching pages ----

    /** Makes page p available. Its bytes are read from the file unless the caller is about to
        overwrite all of them. */
    method FetchOnePage(p: nat, readContent: bool)
      requires Shape() && contentSize > 0 && p < pageStatus.Length
      modifies content, pageStatus
      ensures pageStatus[p] == Fetched
      ensures forall q :: 0 <= q < pageStatus.Length && q != p ==> pageStatus[q] == old(pageStatus[q])
      ensures forall x :: 0 <= x < bufferSize ==>
        content[x] ==
          if old(pageStatus[Page(x)]) == Unfetched && Page(x) == p && readContent then file[startAddress + x]
          else old(content[x])
    {
      if pageStatus[p] == Fetched { return; }
      if readContent {
        forall x | 0 <= x < bufferSize { InBucket(x, p, pageSize); }
        BucketEnd(p, bufferSize, pageSize);
        forall x | p * pageSize <= x < p * pageSize + pageSize {
          content[x] := file[startAddress + x];
        }
      }
      pageStatus[p] := Fetched;
    }

    /** What a fetch does for a request that covers positions lo to hi - 1: nothing changes on
        pages that were there already or are still not there. A new page is read from the file,
        unless the request is about to overwrite all of it. */
    ghost predicate FetchedFor(
        wasStatus: seq<PageStatus>, was: seq<Byte>, alwaysRead: bool, lo: int, hi: int)
      requires Shape()
      reads this, content, pageStatus, file
    {
      contentSize > 0 && |wasStatus| == pageStatus.Length && |was| == bufferSize &&
      (forall q :: 0 <= q < |wasStatus| && wasStatus[q] == Fetched ==> pageStatus[q] == Fetched) &&
      (forall x :: 0 <= x < bufferSize ==>
        content[x] ==
          if wasStatus[Page(x)] == Unfetched && pageStatus[Page(x)] == Fetched &&
             (alwaysRead || !Within(Page(x), lo, hi, pageSize))
          then file[startAddress + x] else was[x])
    }

    /** Fetches page p for such a request. */
    method FetchFor(
        p: nat, readContent: bool, ghost wasStatus: seq<PageStatus>, ghost was: seq<Byte>, ghost alwaysRead: bool,
        ghost lo: int, ghost hi: int)
      requires Shape() && FetchedFor(wasStatus, was, alwaysRead, lo, hi) && p < pageStatus.Length
      requires readContent <==> alwaysRead || !Within(p, lo, hi, pageSize)
      modifies content, pageStatus
      ensures FetchedFor(wasStatus, was, alwaysRead, lo, hi) && pageStatus[p] == Fetched
      ensures forall q :: 0 <= q < pageStatus.Length && q != p ==> pageStatus[q] == old(pageStatus[q])
    {
      hide Page, IsMultiple, Quotient, Within;
      FetchOnePage(p, readContent);
    }

    /** Fetches the pages from startPage to endPage. */
    method FetchPages(
        startPage: nat, endPage: int, readContent: bool, ghost wasStatus: seq<PageStatus>, ghost was: seq<Byte>,
        ghost alwaysRead: bool, ghost lo: int, ghost hi: int)
      requires Shape() && FetchedFor(wasStatus, was, alwaysRead, lo, hi) && endPage < pageStatus.Length
      requires readContent <==> alwaysRead
      requires forall q :: startPage <= q <= endPage ==> Within(q, lo, hi, pageSize)
      modifies content, pageStatus
      ensures FetchedFor(wasStatus, was, alwaysRead, lo, hi)
      ensures forall q :: 0 <= q < pageStatus.Length ==>
        pageStatus[q] == if startPage <= q <= endPage then Fetched else old(pageStatus[q])
    {
      var i := startPage;
      while i <= endPage
        invariant startPage <= i && FetchedFor(wasStatus, was, alwaysRead, lo, hi)
        invariant forall q :: 0 <= q < pageStatus.Length ==>
          pageStatus[q] == if startPage <= q < i && q <= endPage then Fetched else old(pageStatus[q])
      {
        FetchFor(i, readContent, wasStatus, was, alwaysRead, lo, hi);
        i := i + 1;
      }
    }

    /** Fetches the pages of a request. The first and the last page need not be read if the
        request covers them whole and will overwrite them. */
    method FetchRange(
        startPage: nat, endPage: int, wholeFirst: bool, wholeLast: bool, alwaysRead: bool, ghost lo: int, ghost hi: int)
      requires Shape() && contentSize > 0 && startPage < pageStatus.Length && endPage < pageStatus.Length
      requires wholeFirst <==> Within(startPage, lo, hi, pageSize)
      requires endPage > startPage ==>
        (wholeLast <==> Within(endPage, lo, hi, pageSize)) &&
        forall q :: startPage < q < endPage ==> Within(q, lo, hi, pageSize)
      modifies content, pageStatus
      ensures FetchedFor(old(pageStatus[..]), old(content[..]), alwaysRead, lo, hi)
      ensures forall q :: 0 <= q < pageStatus.Length ==>
        pageStatus[q] ==
          if startPage <= q && (q == startPage || q <= endPage) then Fetched else old(pageStatus[q])
    {
      hide Page, IsMultiple, Quotient, Within;
      ghost var wasStatus, was := pageStatus[..], content[..];
      assert FetchedFor(wasStatus, was, alwaysRead, lo, hi);
      hide FetchedFor;
      if wholeFirst {
        FetchFor(startPage, alwaysRead, wasStatus, was, alwaysRead, lo, hi);
      } else {
        FetchFor(startPage, true, wasStatus, was, alwaysRead, lo, hi);
      }
      if endPage > startPage {
        if wholeLast {
          FetchFor(endPage, alwaysRead, wasStatus, was, alwaysRead, lo, hi);
        } else {
          FetchFor(endPage, true, wasStatus, was, alwaysRead, lo, hi);
        }
        FetchPages(startPage + 1, endPage - 1, alwaysRead, wasStatus, was, alwaysRead, lo, hi);
      }
    }

    /** Fetches every page that a request touches, and no other. */
    method CheckAvailability(size: nat, offset: nat, alwaysRead: bool)
      requires Shape() && startAddress <= offset < startAddress + contentSize
      modifies content, pageStatus
      ensures
        var lo := offset - startAddress;
        var hi := if offset + size <= startAddress + contentSize then lo + size else contentSize;
        FetchedFor(old(pageStatus[..]), old(content[..]), alwaysRead, lo, hi) &&
        (forall q :: 0 <= q < pageStatus.Length ==>
          pageStatus[q] ==
            if q == lo / pageSize || Touched(q, lo, hi, pageSize) then Fetched else old(pageStatus[q])) &&
        forall x :: 0 <= x < bufferSize && (x == lo || lo <= x < hi) ==> pageStatus[Page(x)] == Fetched
    {
      hide Page, IsMultiple, Quotient, FetchedFor, Touched, Within;
      var lo, endAddress := offset - startAddress, Min(offset + size, startAddress + contentSize);
      var hi := endAddress - startAddress;
      var startPage, endPage := lo / pageSize, hi / pageSize;
      var whole := endAddress % pageSize == 0;
      if whole { endPage := endPage - 1; }
      PagesOfRequest(lo, hi);
      WholeFirst(lo, hi, size);
      FetchRange(startPage, endPage, offset == startAddress + startPage * pageSize && size >= pageSize, whole,
        alwaysRead, lo, hi);
    }

    /** The test for the first page asks for a size of a page, where the request may reach past
        the buffer. */
    lemma WholeFirst(lo: nat, hi: nat, size: nat)
      requires Shape() && contentSize > 0 && lo < bufferSize
      requires hi == if lo + size <= bufferSize then lo + size else bufferSize
      ensures
        var first := lo / pageSize;
        Within(first, lo, hi, pageSize) <==> lo == first * pageSize && size >= pageSize
    {
      FirstFacts(lo, pageSize);
      BucketCount(lo, bufferSize, pageSize);
      BucketEnd(lo / pageSize, bufferSize, pageSize);
    }

    lemma SamePageEnds(x: nat)
      requires Shape() && contentSize > 0
      ensures (startAddress + x) % pageSize == x % pageSize
    {
      SameRemainder(x, startAddress, bufferSize, pageSize);
    }

    /** What checkAvailability computes about positions lo to hi - 1. */
    lemma PagesOfRequest(lo: nat, hi: nat)
      requires Shape() && contentSize > 0 && lo < bufferSize && lo <= hi <= bufferSize
      ensures (startAddress + hi) % pageSize == hi % pageSize
      ensures
        var first, last := lo / pageSize, Last(hi, pageSize);
        first == Page(lo) && last < pageStatus.Length && (forall x :: lo <= x < hi ==> first <= Page(x) <= last) &&
        (forall q :: 0 <= q < pageStatus.Length ==> (Touched(q, lo, hi, pageSize) <==> first <= q <= last)) &&
        (forall q :: first < q < last ==> Within(q, lo, hi, pageSize)) &&
        (first < last ==> (hi % pageSize == 0 <==> Within(last, lo, hi, pageSize)))
    {
      hide Last, Touched, Within, IsMultiple, Quotient, Page;
      SamePageEnds(hi);
      LastPage(lo, hi, bufferSize, pageSize);
      BucketsTouched(lo, hi, pageSize);
      PagesReached(lo, hi);
    }

    lemma PagesReached(lo: nat, hi: nat)
      requires SizesOk() && lo < bufferSize && lo <= hi <= bufferSize
      ensures Page(lo) == lo / pageSize && forall x :: lo <= x < hi ==> lo / pageSize <= Page(x) <= Last(hi, pageSize)
    {
      hide Last, IsMultiple, Quotient;
      forall x | lo <= x < hi ensures lo / pageSize <= Page(x) <= Last(hi, pageSize) {
        PagesTouched(lo, hi, x, pageSize);
      }
    }

    // ---- Reading and writing ----

    lemma ShapeOfValid()
      requires Valid()
      ensures Shape() && bufferSize > 0
    {
    }

    lemma ContainedShape(offset: nat)
      requires Shape()
      ensures ContainOffset(offset) ==>
        contentSize > 0 && startAddress >= 0 && startAddress + contentSize <= file.Length
    {
    }

    /** Up to size bytes from offset on, as many as the buffer's range has. */
    method ReadFromBuffer(size: nat, offset: nat) returns (r: Reply<seq<Byte>>)
      requires Valid()
      modifies content, pageStatus
      ensures Valid() && View() == old(View())
      ensures r.Unavailable? <==> !(startAddress <= offset < startAddress + contentSize)
      ensures r.Done? ==>
        |r.value| ==
          (if offset + size <= startAddress + contentSize then size else startAddress + contentSize - offset) &&
        forall i :: 0 <= i < |r.value| ==> r.value[i] == old(View())[offset + i]
    {
      hide Block, Page, IsMultiple, Quotient, Slice, Valid, Shape, View, Seen;
      ShapeOfValid();
      ContainedShape(offset);
      if !ContainOffset(offset) { return Unavailable; }
      FetchForRead(size, offset);
      var bytes := CopyOut(offset - startAddress, Min(size, startAddress + contentSize - offset));
      r := Done(bytes);
    }

    /** Copies n bytes out of available pages. */
    method CopyOut(at: nat, n: nat) returns (bytes: seq<Byte>)
      requires Shape() && contentSize > 0 && at + n <= contentSize
      requires forall x :: at <= x < at + n ==> Seen(x) == content[x]
      ensures bytes == Slice(View(), startAddress + at, n)
    {
      hide Slice, Page, IsMultiple, Quotient;
      bytes := content[at..at + n];
      ghost var v := View();
      ghost var w := Slice(v, startAddress + at, n);
      forall i | 0 <= i < n ensures bytes[i] == w[i] {
        assert v[startAddress + (at + i)] == Seen(at + i) == content[at + i];
      }
    }

    /** The fetch before a read changes nothing that clients see, and makes the pages of the
        request available. */
    method FetchForRead(size: nat, offset: nat)
      requires Valid() && startAddress <= offset < startAddress + contentSize
      modifies content, pageStatus
      ensures Valid() && View() == old(View())
      ensures forall x :: 0 <= x < contentSize && offset <= startAddress + x < offset + size ==>
        Seen(x) == content[x]
    {
      hide Block, Page, IsMultiple, Quotient, View;
      ghost var v := View();
      CheckAvailability(size, offset, true);
      forall x | 0 <= x < contentSize ensures v[startAddress + x] == Seen(x) {
        assert v[startAddress + x] == old(Seen(x));
      }
      SameView(v);
    }

    /** The view is determined by the file and by what is seen in the buffer's range. */
    lemma SameView(v: seq<Byte>)
      requires Shape() && |v| == file.Length
      requires forall x {:trigger Seen(x)} :: 0 <= x < contentSize ==> v[startAddress + x] == Seen(x)
      requires forall a :: 0 <= a < |v| && !(startAddress <= a < startAddress + contentSize) ==> v[a] == file[a]
      ensures View() == v
    {
      forall a | 0 <= a < |v| ensures View()[a] == v[a] {
        if startAddress <= a < startAddress + contentSize {
          var x := a - startAddress;
          assert v[startAddress + x] == Seen(x);
        }
      }
    }

    /** Marks as dirty the blocks that positions lo to hi - 1 touch, and for an empty range the
        block of a position lo inside a block. No block of a page that is not there becomes
        dirty. */
    method MarkDirty(lo: nat, hi: nat)
      requires SizesOk() && lo <= hi <= bufferSize && lo < bufferSize
      requires forall x :: 0 <= x < bufferSize && (x == lo || lo <= x < hi) ==> pageStatus[Page(x)] == Fetched
      modifies dirtyBlock
      ensures forall x :: lo <= x < hi ==> dirtyBlock[Block(x)] == Dirty
      ensures forall x :: 0 <= x < bufferSize && pageStatus[Page(x)] == Unfetched ==>
        dirtyBlock[Block(x)] == old(dirtyBlock[Block(x)])
      ensures forall b :: 0 <= b < dirtyBlock.Length ==>
        dirtyBlock[b] == if Touched(b, lo, hi, blockSize) then Dirty else old(dirtyBlock[b])
    {
      hide Page, Block, IsMultiple, Quotient, Last, Touched;
      var dirtyStart, dirtyEnd := DirtyRange(lo, hi);
      DirtyBlocks(lo, hi);
      var i := dirtyStart;
      while i <= dirtyEnd
        invariant dirtyStart <= i
        invariant forall b :: 0 <= b < dirtyBlock.Length ==>
          dirtyBlock[b] == if dirtyStart <= b < i && b <= dirtyEnd then Dirty else old(dirtyBlock[b])
        modifies dirtyBlock
      {
        dirtyBlock[i] := Dirty;
        i := i + 1;
      }
      forall x | 0 <= x < bufferSize && dirtyStart <= Block(x) <= dirtyEnd ensures pageStatus[Page(x)] == Fetched {
        var y := TouchedPosition(lo, hi, x);
      }
    }

    method DirtyRange(lo: nat, hi: nat) returns (dirtyStart: nat, dirtyEnd: int)
      requires 0 < blockSize
      ensures dirtyStart == lo / blockSize && dirtyEnd == Last(hi, blockSize)
    {
      dirtyStart, dirtyEnd := lo / blockSize, hi / blockSize;
      if hi % blockSize == 0 { dirtyEnd := dirtyEnd - 1; }
    }

    /** The blocks that writeToBuffer marks: those of the positions, and no block past the last. */
    lemma DirtyBlocks(lo: nat, hi: nat)
      requires SizesOk() && lo <= hi <= bufferSize && lo < bufferSize
      ensures
        var first, last := lo / blockSize, Last(hi, blockSize);
        last < dirtyBlock.Length && (forall x :: lo <= x < hi ==> first <= Block(x) <= last) &&
        forall b :: 0 <= b < dirtyBlock.Length ==> (Touched(b, lo, hi, blockSize) <==> first <= b <= last)
    {
      hide Touched;
      forall b | 0 <= b < dirtyBlock.Length
        ensures Touched(b, lo, hi, blockSize) <==> lo / blockSize <= b <= Last(hi, blockSize)
      {
        TouchedUpTo(b, lo, hi, blockSize);
      }
      LastPage(lo, hi, bufferSize, blockSize);
      forall x | lo <= x < hi
        ensures lo / blockSize <= Block(x) <= Last(hi, blockSize)
      {
        PagesTouched(lo, hi, x, blockSize);
      }
    }

    /** A position of the request on the page of any marked block. */
    lemma TouchedPosition(lo: nat, hi: nat, x: nat) returns (y: nat)
      requires SizesOk() && lo <= hi <= bufferSize && lo < bufferSize && x < bufferSize
      requires lo / blockSize <= Block(x) <= Last(hi, blockSize)
      ensures y < bufferSize && Page(y) == Page(x) && (y == lo || lo <= y < hi)
    {
      y := TouchedIn(lo, hi, x, blockSize);
      SameBlockSamePage(x, y, blockSize, pageSize);
    }

    /** The positions of a page. */
    lemma InPages()
      requires SizesOk()
      ensures forall x: nat :: x < bufferSize ==> Page(x) * pageSize <= x < Page(x) * pageSize + pageSize
      ensures forall x: nat, lo, hi ::
        x < bufferSize && Within(Page(x), lo, hi, pageSize) ==> lo <= x < hi
    {
      hide IsMultiple, Quotient;
      forall x: nat | x < bufferSize ensures Page(x) * pageSize <= x < Page(x) * pageSize + pageSize {
        FirstFacts(x, pageSize);
      }
    }

    /** Valid but for the bytes from lo to hi - 1, which are about to be overwritten. */
    ghost predicate ValidBut(lo: int, hi: int)
      reads this, content, dirtyBlock, pageStatus, file
    {
      Shape() && contentSize > 0 && 0 <= lo < bufferSize && lo <= hi <= bufferSize &&
      (forall x :: 0 <= x < bufferSize && pageStatus[Page(x)] == Fetched && dirtyBlock[Block(x)] == Clean ==>
        content[x] == file[startAddress + x] || lo <= x < hi) &&
      (forall x :: 0 <= x < bufferSize && dirtyBlock[Block(x)] != Clean ==> pageStatus[Page(x)] == Fetched) &&
      (forall b :: 0 <= b < dirtyBlock.Length ==> dirtyBlock[b] != Processing) &&
      (forall x :: 0 <= x < bufferSize && (x == lo || lo <= x < hi) ==> pageStatus[Page(x)] == Fetched)
    }

    /** Copies the first n bytes of buf to position lo and marks their blocks. */
    method StoreBytes(buf: seq<Byte>, lo: nat, n: nat)
      requires ValidBut(lo, lo + n) && n <= |buf|
      modifies this`dirtyBit, content, dirtyBlock
      ensures Valid() && dirtyBit == Dirty
      ensures forall x :: 0 <= x < bufferSize ==>
        content[x] == if lo <= x < lo + n then buf[x - lo] else old(content[x])
    {
      hide Block, Page, IsMultiple, Quotient;
      forall x | lo <= x < lo + n { content[x] := buf[x - lo]; }
      MarkDirty(lo, lo + n);
      dirtyBit := Dirty;
    }

    /** Stores as many of the bytes from offset on as the buffer's range has room for, and
        returns their number. Only the buffer changes, not the file. */
    method WriteToBuffer(buf: seq<Byte>, offset: nat) returns (r: Reply<nat>)
      requires Valid()
      modifies this`dirtyBit, content, pageStatus, dirtyBlock
      ensures Valid()
      ensures r.Unavailable? <==> !(startAddress <= offset < startAddress + contentSize)
      ensures r.Unavailable? ==> View() == old(View()) && dirtyBit == old(dirtyBit)
      ensures r.Done? ==>
        dirtyBit == Dirty &&
        r.value ==
          (if offset + |buf| <= startAddress + contentSize then |buf| else startAddress + contentSize - offset) &&
        forall a :: 0 <= a < file.Length ==>
          View()[a] == if offset <= a < offset + r.value then buf[a - offset] else old(View())[a]
    {
      hide Block, Page, IsMultiple, Quotient, ValidBut, Splice, Valid;
      ShapeOfValid();
      if !ContainOffset(offset) { return Unavailable; }
      ghost var v := View();
      var lo, writeSize := offset - startAddress, Min(|buf|, startAddress + contentSize - offset);
      FetchForWrite(buf, offset);
      label fetched:
      StoreBytes(buf, lo, writeSize);
      r := Done(writeSize);
      ghost var w := Splice(v, offset, buf[..writeSize]);
      forall x | 0 <= x < contentSize ensures w[startAddress + x] == Seen(x) {
        assert v[startAddress + x] == old(Seen(x));
        if lo <= x < lo + writeSize {
          assert old@fetched(Seen(x)) == old@fetched(content[x]);
          assert Seen(x) == content[x] == buf[x - lo];
        } else {
          assert old@fetched(Seen(x)) == old(Seen(x));
        }
      }
      SameView(w);
    }

    /** The fetch before a write leaves what clients see outside the written range, and makes
        the pages of the range available. */
    method FetchForWrite(buf: seq<Byte>, offset: nat)
      requires Valid() && startAddress <= offset < startAddress + contentSize
      modifies content, pageStatus
      ensures
        var lo := offset - startAddress;
        var n := if offset + |buf| <= startAddress + contentSize then |buf| else contentSize - lo;
        ValidBut(lo, lo + n) &&
        forall x {:trigger Seen(x)} :: 0 <= x < contentSize ==>
          if lo <= x < lo + n then pageStatus[Page(x)] == Fetched else Seen(x) == old(Seen(x))
    {
      hide Block, Page, IsMultiple, Quotient, Touched, Within;
      CheckAvailability(|buf|, offset, false);
      InPages();
    }

    // ---- Writing back ----

    /** The positions of a run of blocks. */
    lemma RunOfBlocks(first: nat, last: nat)
      requires SizesOk() && first < last <= dirtyBlock.Length
      ensures 0 <= first * blockSize && first * blockSize + (last - first) * blockSize <= bufferSize
      ensures forall x :: 0 <= x < bufferSize ==>
        (first <= Block(x) < last <==> first * blockSize <= x < first * blockSize + (last - first) * blockSize)
    {
      RunEnd(first, last, bufferSize, blockSize);
      forall x | 0 <= x < bufferSize
        ensures first <= Block(x) < last <==> first * blockSize <= x < first * blockSize + (last - first) * blockSize
      {
        InRun(x, first, last, blockSize);
      }
    }

    /** Writes the blocks from first to last - 1 to the file in one go. */
    method FlushRun(first: nat, last: nat)
      requires Shape() && contentSize > 0 && first < last <= dirtyBlock.Length
      modifies file, dirtyBlock
      ensures forall b :: 0 <= b < dirtyBlock.Length ==>
        dirtyBlock[b] == if first <= b < last then Clean else old(dirtyBlock[b])
      ensures forall x :: 0 <= x < bufferSize ==>
        file[startAddress + x] == if first <= Block(x) < last then content[x] else old(file[startAddress + x])
      ensures forall a :: 0 <= a < file.Length && !(startAddress <= a < startAddress + bufferSize) ==>
        file[a] == old(file[a])
    {
      hide Block, IsMultiple, Quotient;
      RunOfBlocks(first, last);
      var address, size := first * blockSize, (last - first) * blockSize;
      forall x | address <= x < address + size { file[startAddress + x] := content[x]; }
      for j := first to last
        invariant forall b :: 0 <= b < dirtyBlock.Length ==>
          dirtyBlock[b] == if first <= b < j then Clean else old(dirtyBlock[b])
        modifies dirtyBlock
      {
        dirtyBlock[j] := Clean;
      }
    }

    /** Writes every run of dirty blocks to the file. The file becomes what clients see; nothing
        outside the buffer's range changes. */
    method DoWriteBack()
      requires Valid()
      modifies this`dirtyBit, file, dirtyBlock
      ensures Valid() && IsClean() && dirtyBit == Clean
      ensures file[..] == old(View()) && View() == old(View())
      ensures forall a :: 0 <= a < file.Length && !(startAddress <= a < startAddress + contentSize) ==>
        file[a] == old(file[a])
    {
      hide Block, Page, IsMultiple, Quotient, FlushedTo, Valid, Shape;
      ShapeOfValid();
      ghost var v := View();
      ghost var seen := SeenAll();
      FlushAll(seen);
      forall a | 0 <= a < file.Length ensures file[a] == v[a] {
        if startAddress <= a < startAddress + contentSize {
          var x := a - startAddress;
          assert v[startAddress + x] == old(Seen(x)) == seen[x];
        }
      }
      CleanViewIsFile();
    }

    /** Dirty blocks are seen in the buffer, the others in the file. */
    ghost predicate SeenWhere(seen: seq<Byte>, was: seq<Byte>, wasDirty: seq<BlockStatus>)
      requires Shape()
      reads this, content
    {
      |seen| == contentSize && |was| == file.Length && |wasDirty| == dirtyBlock.Length &&
      (forall b :: 0 <= b < |wasDirty| ==> wasDirty[b] != Processing && (wasDirty[b] == Dirty ==> contentSize > 0)) &&
      forall x :: 0 <= x < contentSize ==>
        seen[x] == if wasDirty[Block(x)] == Dirty then content[x] else was[startAddress + x]
    }

    /** The loop of doWriteBack. */
    method FlushAll(ghost seen: seq<Byte>)
      requires Valid() && |seen| == contentSize && forall x :: 0 <= x < contentSize ==> seen[x] == Seen(x)
      modifies this`dirtyBit, file, dirtyBlock
      ensures Valid() && IsClean() && dirtyBit == Clean
      ensures forall x :: 0 <= x < contentSize ==> file[startAddress + x] == seen[x]
      ensures forall a :: 0 <= a < file.Length && !(startAddress <= a < startAddress + contentSize) ==>
        file[a] == old(file[a])
    {
      hide Block, Page, IsMultiple, Quotient;
      ghost var was, wasDirty := file[..], dirtyBlock[..];
      assert SeenWhere(seen, was, wasDirty);
      FlushLoop(seen, was, wasDirty);
      dirtyBit := Clean;
    }

    method FlushLoop(ghost seen: seq<Byte>, ghost was: seq<Byte>, ghost wasDirty: seq<BlockStatus>)
      requires Shape() && SeenWhere(seen, was, wasDirty) && was == file[..] && wasDirty == dirtyBlock[..]
      modifies file, dirtyBlock
      ensures FlushedTo(seen, was, wasDirty, dirtyBlock.Length, dirtyBlock.Length)
    {
      hide Block, Page, IsMultiple, Quotient;
      var dirtyStart := -1;
      for i := 0 to dirtyBlock.Length
        invariant -1 <= dirtyStart < i
        invariant FlushedTo(seen, was, wasDirty, if dirtyStart == -1 then i else dirtyStart, i)
      {
        if dirtyBlock[i] == Dirty {
          if dirtyStart == -1 { dirtyStart := i; }
          dirtyBlock[i] := Processing;
        } else if dirtyStart != -1 {
          FlushTo(dirtyStart, i, seen, was, wasDirty);
          dirtyStart := -1;
        }
      }
      if dirtyStart != -1 { FlushTo(dirtyStart, dirtyBlock.Length, seen, was, wasDirty); }
    }

    /** Ends the current run before block i, which is not dirty. */
    method FlushTo(
        dirtyStart: nat, i: nat, ghost seen: seq<Byte>, ghost was: seq<Byte>, ghost wasDirty: seq<BlockStatus>)
      requires Shape() && SeenWhere(seen, was, wasDirty) && FlushedTo(seen, was, wasDirty, dirtyStart, i)
      requires dirtyStart < i && (i < dirtyBlock.Length ==> wasDirty[i] == Clean)
      modifies file, dirtyBlock
      ensures FlushedTo(seen, was, wasDirty, i, i)
      ensures i < dirtyBlock.Length ==> FlushedTo(seen, was, wasDirty, i + 1, i + 1)
    {
      hide Block, Page, IsMultiple, Quotient;
      assert wasDirty[dirtyStart] == Dirty;
      FlushRun(dirtyStart, i);
    }

    /** The state of a write-back in progress: blocks below done are on the file, blocks from
        done to i - 1 form the current run, the others are as they were. */
    ghost predicate FlushedTo(seen: seq<Byte>, was: seq<Byte>, wasDirty: seq<BlockStatus>, done: nat, i: nat)
      requires Shape()
      reads this, file, dirtyBlock
    {
      |seen| == contentSize && |was| == file.Length && |wasDirty| == dirtyBlock.Length &&
      done <= i <= dirtyBlock.Length &&
      (forall b :: 0 <= b < dirtyBlock.Length ==>
        dirtyBlock[b] == if b < done then Clean else if b < i then Processing else wasDirty[b]) &&
      (forall b :: done <= b < i ==> wasDirty[b] == Dirty) &&
      (forall x :: 0 <= x < contentSize ==>
        file[startAddress + x] == if Block(x) < done then seen[x] else was[startAddress + x]) &&
      (forall a :: 0 <= a < file.Length && !(startAddress <= a < startAddress + contentSize) ==> file[a] == was[a])
    }

    // ---- Moving the buffer ----

    method ClearContent()
      requires Shape()
      modifies this`dirtyBit, this`startAddress, this`contentSize, content, dirtyBlock, pageStatus
      ensures Valid() && IsClean() && dirtyBit == Clean && contentSize == 0 && View() == file[..]
    {
      hide Block, Page, IsMultiple, Quotient;
      forall x | 0 <= x < content.Length { content[x] := '\0'; }
      dirtyBit := Clean;
      for i := 0 to dirtyBlock.Length
        invariant forall b :: 0 <= b < i ==> dirtyBlock[b] == Clean
        modifies dirtyBlock
      {
        dirtyBlock[i] := Clean;
      }
      for i := 0 to pageStatus.Length
        invariant forall p :: 0 <= p < i ==> pageStatus[p] == Unfetched
        modifies pageStatus
      {
        pageStatus[i] := Unfetched;
      }
      startAddress, contentSize := -1, 0;
    }

    /** Moves the buffer to the range around offset. Clients then see the file, so writes that
        have not been written back are lost. */
    method DoPrefetch(offset: nat)
      requires Valid() && offset / bufferSize * bufferSize + bufferSize <= file.Length
      modifies this`dirtyBit, this`startAddress, this`contentSize, content, dirtyBlock, pageStatus
      ensures Valid() && IsClean() && dirtyBit == Clean && startAddress <= offset < startAddress + contentSize
      ensures startAddress == offset / bufferSize * bufferSize && contentSize == bufferSize
      ensures View() == file[..] && (old(IsClean()) ==> View() == old(View()))
    {
      hide Block, Page, IsMultiple, Quotient;
      if IsClean() { CleanViewIsFile(); }
      ClearContent();
      RangeAround(offset, bufferSize);
      startAddress := RangeStart(offset, bufferSize);
      contentSize := bufferSize;
    }

    lemma CleanViewIsFile()
      requires Valid() && IsClean()
      ensures View() == file[..]
    {
    }

    // ---- Any run of requests ----

    ghost function Plain(): (p: PlainFile)
      requires Shape()
      reads this, content, pageStatus, file
      ensures p.Valid() && |p.bytes| == file.Length
    {
      PlainFile(View(), startAddress, contentSize)
    }

    /** One request, answered as the plain file would. */
    method Serve(q: Request) returns (answer: Outcome)
      requires Valid() && Fits(q, bufferSize, file.Length)
      modifies this`dirtyBit, this`startAddress, this`contentSize, content, pageStatus, dirtyBlock, file
      ensures Valid()
      ensures answer == Answer(old(Plain()), q) && Plain() == FileAfter(old(Plain()), bufferSize, q)
      ensures q.WriteBack? || q.Move? ==> IsClean() && file[..] == Plain().bytes
    {
      hide Block, Page, IsMultiple, Quotient, RangeStart, Answer, FileAfter, View, Valid;
      ShapeOfValid();
      ghost var p := Plain();
      answer := Finished;
      match q
      case Read(size, offset) =>
        var r := ReadFromBuffer(size, offset);
        ShapeOfValid();
        answer := if r.Unavailable? then Missed else Bytes(r.value);
        assert r.Done? ==> r.value == Answer(p, q).bytes;
      case Write(buf, offset) =>
        var r := WriteToBuffer(buf, offset);
        ShapeOfValid();
        answer := if r.Unavailable? then Missed else Written(r.value);
        assert View() == FileAfter(p, bufferSize, q).bytes;
      case WriteBack =>
        DoWriteBack();
        ShapeOfValid();
      case Move(offset) =>
        RangeStartIs(offset, bufferSize);
        DoWriteBack();
        DoPrefetch(offset);
        ShapeOfValid();
    }

    /** The requests one after the other, and a final write-back. */
    method ServeAll(qs: seq<Request>) returns (answers: seq<Outcome>)
      requires Valid() && forall i :: 0 <= i < |qs| ==> Fits(qs[i], bufferSize, file.Length)
      modifies this`dirtyBit, this`startAddress, this`contentSize, content, pageStatus, dirtyBlock, file
      ensures Valid() && IsClean() && |answers| == |qs|
      ensures
        var p := old(Plain());
        Plain() == FileAfterAll(p, bufferSize, qs) && file[..] == Plain().bytes &&
        forall i :: 0 <= i < |qs| ==> answers[i] == Answer(FileAfterAll(p, bufferSize, qs[..i]), qs[i])
    {
      hide Block, Page, IsMultiple, Quotient, Slice, Splice, Answer, FileAfter, Fits, Plain, View;
      answers := [];
      ghost var p := Plain();
      for i := 0 to |qs|
        invariant Valid() && |answers| == i && Plain() == FileAfterAll(p, bufferSize, qs[..i])
        invariant forall j :: 0 <= j < i ==> answers[j] == Answer(FileAfterAll(p, bufferSize, qs[..j]), qs[j])
      {
        var answer := Serve(qs[i]);
        answers := answers + [answer];
        assert qs[..i + 1][..i] == qs[..i];
      }
      assert qs[..|qs|] == qs;
      WriteBackAll();
    }

    /** The buffer answers any run of requests, over any number of ranges, as the plain file
        would, and after a final write-back the file is what it would have been. A read of what
        the write just before it has written in the range last moved to answers just that. */
    method Run(qs: seq<Request>) returns (answers: seq<Outcome>)
      requires Valid() && forall i :: 0 <= i < |qs| ==> Fits(qs[i], bufferSize, file.Length)
      modifies this`dirtyBit, this`startAddress, this`contentSize, content, pageStatus, dirtyBlock, file
      ensures Valid() && IsClean() && |answers| == |qs|
      ensures
        var p := old(Plain());
        Plain() == FileAfterAll(p, bufferSize, qs) && file[..] == Plain().bytes &&
        forall i :: 0 <= i < |qs| ==> answers[i] == Answer(FileAfterAll(p, bufferSize, qs[..i]), qs[i])
      ensures forall m, i ::
        0 <= m < i < |qs| - 1 && qs[m].Move? && (forall j :: m < j < i ==> !qs[j].Move?) &&
        qs[i].Write? && qs[i + 1] == Read(|qs[i].buf|, qs[i].offset) &&
        (var start := qs[m].offset / bufferSize * bufferSize;
         start <= qs[i].offset < start + bufferSize && qs[i].offset + |qs[i].buf| <= start + bufferSize) ==>
        answers[i + 1] == Bytes(qs[i].buf)
    {
      hide Block, Page, IsMultiple, Quotient, Answer, FileAfter, FileAfterAll, Fits, Plain, View, Valid, Shape, IsClean;
      ShapeOfValid();
      ghost var p := Plain();
      answers := ServeAll(qs);
      ReadsAfterWrites(p, bufferSize, qs, answers);
    }

    /** A write-back changes nothing that clients see. */
    method WriteBackAll()
      requires Valid()
      modifies this`dirtyBit, file, dirtyBlock
      ensures Valid() && IsClean() && Plain() == old(Plain()) && file[..] == Plain().bytes
    {
      hide Block, Page, IsMultiple, Quotient, Valid, View;
      ShapeOfValid();
      DoWriteBack();
      ShapeOfValid();
    }
  }

  /** Blocks fill pages and pages fill the buffer, so blocks fill the buffer. */
  lemma WholeBlocks(block: nat, page: nat, buffer: nat)
    requires block > 0 && page > 0 && page % block == 0 && buffer % page == 0
    ensures buffer % block == 0
  {
    var m, n := buffer / page, page / block;
    assert buffer == m * page && page == n * block;
    assert buffer == (m * n) * block;
    DivMod(buffer, m * n, 0, block);
  }

  lemma RangeAround(x: nat, n: nat)
    requires n > 0
    ensures var start := x / n * n; 0 <= start <= x < start + n && IsMultiple(start, n)
  {
    var q := x / n;
    assert x == q * n + x % n;
    MulNonNegative(q, n);
    DivMod(q * n, q, 0, n);
  }

  lemma BucketEnd(q: nat, size: nat, n: nat)
    requires n > 0 && size % n == 0 && q < size / n
    ensures 0 <= q * n && q * n + n <= size
  {
    var m := size / n;
    assert size == m * n;
    MulNonNegative(m - q - 1, n);
    MulNonNegative(q, n);
  }

  lemma BucketBetween(a: nat, i: nat, b: int, n: nat)
    requires a <= i <= b
    ensures a * n <= i * n && i * n + n <= (b + 1) * n
  {
    MulNonNegative(i - a, n);
    MulNonNegative(b - i, n);
    assert (b + 1) * n == i * n + n + (b - i) * n;
    assert i * n == a * n + (i - a) * n;
  }

  /** Addresses and positions in the buffer end pages together. */
  lemma SameRemainder(x: nat, start: int, buffer: nat, page: nat)
    requires page > 0 && buffer > 0 && buffer % page == 0 && start >= 0 && start % buffer == 0
    ensures (start + x) % page == x % page
  {
    var m, n := start / buffer, buffer / page;
    assert start == m * buffer && buffer == n * page;
    assert start == (m * n) * page;
    AddMultiple(x, m * n, page);
  }

  /** The last bucket that ends at or after hi and begins before it. */
  function Last(hi: nat, n: nat): int
    requires n > 0
  {
    if hi % n == 0 then hi / n - 1 else hi / n
  }

  lemma LastFacts(hi: nat, n: nat)
    requires n > 0
    ensures Last(hi, n) * n < hi <= Last(hi, n) * n + n
    ensures hi % n == 0 ==> hi == Last(hi, n) * n + n
  {
    assert hi == hi / n * n + hi % n;
    assert (hi / n - 1) * n == hi / n * n - n;
  }

  lemma FirstFacts(lo: nat, n: nat)
    requires n > 0
    ensures lo / n * n <= lo < lo / n * n + n
  {
    assert lo == lo / n * n + lo % n;
  }

  /** If a * n < b * n + n then a <= b. */
  lemma BucketOrder(a: int, b: int, n: nat)
    requires n > 0 && a * n < b * n + n
    ensures a <= b
  {
    if a > b { BucketStarts(b, a, n); }
  }

  lemma BucketStarts(a: int, b: int, n: nat)
    requires a < b
    ensures a * n + n <= b * n
  {
    MulNonNegative(b - a - 1, n);
    assert b * n == (b - a - 1) * n + a * n + n;
  }

  /** The last page that positions lo to hi - 1 touch, as checkAvailability computes it, and
      where it begins and ends. */
  lemma LastPage(lo: nat, hi: nat, size: nat, n: nat)
    requires n > 0 && IsMultiple(size, n) && lo <= hi <= size && lo < size
    ensures
      var last := Last(hi, n);
      last < Quotient(size, n) && lo / n * n <= lo < lo / n * n + n && last * n < hi <= last * n + n &&
      (last > lo / n ==> lo / n * n + n <= last * n) &&
      (hi % n == 0 ==> last * n + n == hi)
  {
    LastFacts(hi, n);
    FirstFacts(lo, n);
    assert size == size / n * n;
    assert (size / n - 1) * n == size / n * n - n;
    BucketOrder(Last(hi, n), size / n - 1, n);
    if Last(hi, n) > lo / n { BucketStarts(lo / n, Last(hi, n), n); }
  }

  lemma TouchedUpTo(q: nat, lo: nat, hi: nat, n: nat)
    requires n > 0
    ensures Touched(q, lo, hi, n) <==> lo / n <= q <= Last(hi, n)
  {
    LastFacts(hi, n);
    if q * n < hi { BucketOrder(q, Last(hi, n), n); }
    if q < Last(hi, n) { BucketStarts(q, Last(hi, n), n); }
  }

  /** Of the buckets after the first, only the last may reach past the end. */
  lemma WithinAll(q: nat, lo: nat, hi: nat, n: nat)
    requires n > 0 && lo / n < q <= Last(hi, n)
    ensures Within(q, lo, hi, n) <==> q < Last(hi, n) || hi % n == 0
  {
    LastFacts(hi, n);
    FirstFacts(lo, n);
    BucketStarts(lo / n, q, n);
    if q < Last(hi, n) {
      BucketStarts(q, Last(hi, n), n);
    } else if hi == q * n + n {
      DivMod(hi, q + 1, 0, n);
    }
  }

  lemma BucketsTouched(lo: nat, hi: nat, n: nat)
    requires n > 0
    ensures forall q: nat :: Touched(q, lo, hi, n) <==> lo / n <= q <= Last(hi, n)
    ensures forall q: nat :: lo / n < q <= Last(hi, n) ==>
      (Within(q, lo, hi, n) <==> q < Last(hi, n) || hi % n == 0)
  {
    hide Touched, Within, Last;
    forall q: nat ensures Touched(q, lo, hi, n) <==> lo / n <= q <= Last(hi, n) { TouchedUpTo(q, lo, hi, n); }
    forall q: nat | lo / n < q <= Last(hi, n) ensures Within(q, lo, hi, n) <==> q < Last(hi, n) || hi % n == 0 {
      WithinAll(q, lo, hi, n);
    }
  }

  lemma PagesTouched(lo: nat, hi: nat, x: nat, n: nat)
    requires n > 0 && lo <= x < hi
    ensures lo / n <= x / n <= Last(hi, n)
  {
    LastFacts(hi, n);
    FirstFacts(lo, n);
    FirstFacts(x, n);
    BucketOrder(lo / n, x / n, n);
    BucketOrder(x / n, Last(hi, n), n);
  }

  /** The touched positions reach every block between the first and the last. */
  lemma TouchedIn(lo: nat, hi: nat, x: nat, n: nat) returns (y: nat)
    requires n > 0 && lo <= hi && lo / n <= x / n <= Last(hi, n)
    ensures y / n == x / n && (y == lo || lo <= y < hi)
  {
    hide Last, Start;
    var q := x / n;
    if q == lo / n { return lo; }
    StartOfItself(q, n);
    y := Start(q, n);
    StartsAfter(lo, q, n);
    StartsBefore(hi, q, n);
  }

  function Start(q: int, n: nat): int {
    q * n
  }

  lemma StartOfItself(q: nat, n: nat)
    requires n > 0
    ensures Start(q, n) >= 0 && Start(q, n) / n == q
  {
    MulNonNegative(q, n);
    DivMod(q * n, q, 0, n);
  }

  lemma StartsAfter(lo: nat, q: nat, n: nat)
    requires n > 0 && lo / n < q
    ensures lo < Start(q, n)
  {
    FirstFacts(lo, n);
    BucketStarts(lo / n, q, n);
  }

  lemma StartsBefore(hi: nat, q: nat, n: nat)
    requires n > 0 && q <= Last(hi, n)
    ensures Start(q, n) < hi
  {
    LastFacts(hi, n);
    if q < Last(hi, n) { BucketStarts(q, Last(hi, n), n); }
  }

  lemma SameBlockSamePage(x: nat, y: nat, block: nat, page: nat)
    requires block > 0 && page > 0 && page % block == 0 && x / block == y / block
    ensures x / page == y / page
  {
    PageOfBlock(x, block, page);
    PageOfBlock(y, block, page);
  }

  lemma PageOfBlock(x: nat, block: nat, page: nat)
    requires block > 0 && page > 0 && page % block == 0
    ensures page / block > 0 && x / page == x / block / (page / block)
  {
    var n := page / block;
    assert page == n * block;
    var b := x / block;
    var q, r := b / n, b % n;
    assert x == b * block + x % block && b == q * n + r;
    assert x == q * page + (r * block + x % block) by {
      assert b * block == q * n * block + r * block;
      assert q * (n * block) == q * n * block;
    }
    MulNonNegative(r, block);
    MulNonNegative(n - 1 - r, block);
    assert n * block == r * block + block + (n - 1 - r) * block;
    DivMod(x, q, r * block + x % block, page);
  }

  lemma RunEnd(first: nat, last: nat, size: nat, n: nat)
    requires n > 0 && size % n == 0 && first < last <= size / n
    ensures 0 <= first * n && first * n + (last - first) * n <= size
  {
    var m := size / n;
    assert size == m * n;
    MulNonNegative(first, n);
    MulNonNegative(m - last, n);
    assert first * n + (last - first) * n == last * n;
    assert m * n == last * n + (m - last) * n;
  }

  lemma InRun(x: nat, first: nat, last: nat, n: nat)
    requires n > 0 && first <= last
    ensures first <= x / n < last <==> first * n <= x < first * n + (last - first) * n
  {
    var q := x / n;
    assert x == q * n + x % n && first * n + (last - first) * n == last * n;
    if first <= q { MulNonNegative(q - first, n); assert q * n == first * n + (q - first) * n; }
    if q < first { MulNonNegative(first - q - 1, n); assert first * n == q * n + n + (first - q - 1) * n; }
    if q < last { MulNonNegative(last - q - 1, n); assert last * n == q * n + n + (last - q - 1) * n; }
    if last <= q { MulNonNegative(q - last, n); assert q * n == last * n + (q - last) * n; }
  }
}
