/** Answering a decryption request in chunks, and the two readers of the request account. */
module Decryption {
  import opened Arith
  import opened LittleEndian
  import opened FheTypes

  const MAX_CHUNK := 700
  const TOTAL_LEN := 99
  const BYTES_WRITTEN := 103
  const HEADER_END := 107

  // ---- sending ----

  /** What each transaction carries. */
  function Chunks(plaintext: seq<byte>): seq<seq<byte>> {
    if plaintext == [] then []
    else if |plaintext| <= MAX_CHUNK then [plaintext]
    else [plaintext[..MAX_CHUNK]] + Chunks(plaintext[MAX_CHUNK..])
  }

  /** The request account: what precedes the lengths, the announced and written lengths, the body. */
  datatype Request = Request(prefix: seq<byte>, total: nat, written: nat, body: seq<byte>)

  predicate ValidRequest(r: Request) {
    |r.prefix| == TOTAL_LEN && r.total < U32 && r.written <= r.total <= |r.body|
  }

  const U32: nat := 0x1_0000_0000

  /** A new request announces the plaintext's length and has no bytes yet. */
  predicate Fresh(r: Request, len: nat) {
    ValidRequest(r) && r.written == 0 && r.total == len
  }

  /** A chunk lands behind the bytes written so far, if the announced length allows it. */
  function Append(r: Request, chunk: seq<byte>): (r': Request)
    requires ValidRequest(r)
    ensures ValidRequest(r')
  {
    var end := r.written + |chunk|;
    if end > r.total then r
    else r.(written := end, body := r.body[..r.written] + chunk + r.body[end..])
  }

  function AppendAll(r: Request, chunks: seq<seq<byte>>): (r': Request)
    requires ValidRequest(r)
    ensures ValidRequest(r')
  {
    if chunks == [] then r else Append(AppendAll(r, chunks[..|chunks| - 1]), chunks[|chunks| - 1])
  }

  class RequestAccount {
    var request: Request

    constructor (request: Request)
      requires ValidRequest(request)
      ensures this.request == request
    {
      this.request := request;
    }

    /** The on-chain side: a chunk that does not fit fails its transaction. */
    method Receive(chunk: seq<byte>) returns (ok: bool)
      requires ValidRequest(request)
      modifies this
      ensures ok == (old(request).written + |chunk| <= old(request).total)
      ensures ValidRequest(request) && request == Append(old(request), chunk)
    {
      var end := request.written + |chunk|;
      ok := end <= request.total;
      if ok {
        request := request.(written := end, body := request.body[..request.written] + chunk + request.body[end..]);
      }
    }
  }

  /** `respond_decryption`: one transaction per chunk, stopping at the first that fails. Every chunk is
      accepted exactly when the request still has room for the whole plaintext. */
  method RespondDecryption(account: RequestAccount, plaintext: seq<byte>) returns (ok: bool, accepted: nat)
    requires ValidRequest(account.request)
    modifies account
    ensures accepted <= |Chunks(plaintext)| && ok == (accepted == |Chunks(plaintext)|)
    ensures ok <==> old(account.request).written + |plaintext| <= old(account.request).total
    ensures ValidRequest(account.request)
    ensures account.request == AppendAll(old(account.request), Chunks(plaintext)[..accepted])
  {
    ghost var chunks := Chunks(plaintext);
    ok, accepted := true, 0;
    var offset := 0;
    while offset < |plaintext|
      invariant 0 <= offset <= |plaintext| && accepted <= |chunks|
      invariant chunks[accepted..] == Chunks(plaintext[offset..])
      invariant ValidRequest(account.request) && account.request == AppendAll(old(account.request), chunks[..accepted])
      invariant account.request.total == old(account.request).total
      invariant account.request.written == old(account.request).written + offset
    {
      var end := if offset + MAX_CHUNK < |plaintext| then offset + MAX_CHUNK else |plaintext|;
      var chunk := plaintext[offset..end];
      FirstChunk(plaintext, offset);
      assert chunks[accepted] == chunks[accepted..][0] == chunk;
      ok := account.Receive(chunk);
      if !ok {
        return;
      }
      assert chunks[..accepted + 1][..accepted] == chunks[..accepted];
      assert chunks[accepted + 1..] == chunks[accepted..][1..];
      accepted := accepted + 1;
      offset := end;
    }
    assert plaintext[offset..] == [];
  }

  lemma FirstChunk(p: seq<byte>, offset: nat)
    requires offset < |p|
    ensures var end := if offset + MAX_CHUNK < |p| then offset + MAX_CHUNK else |p|;
            Chunks(p[offset..]) == [p[offset..end]] + Chunks(p[end..])
  {
    var end := if offset + MAX_CHUNK < |p| then offset + MAX_CHUNK else |p|;
    if end < |p| {
      assert p[offset..][..MAX_CHUNK] == p[offset..end] && p[offset..][MAX_CHUNK..] == p[end..];
    } else {
      assert p[offset..] == p[offset..end] && p[end..] == [];
    }
  }

  // ---- chunks cover the plaintext ----

  /** Where chunk k starts. */
  function ChunkStart(len: nat, k: nat): nat {
    if k * MAX_CHUNK < len then k * MAX_CHUNK else len
  }

  lemma ChunksUnfold(p: seq<byte>)
    ensures |p| <= MAX_CHUNK ==> Chunks(p) == if p == [] then [] else [p]
    ensures |p| > MAX_CHUNK ==> Chunks(p) == [p[..MAX_CHUNK]] + Chunks(p[MAX_CHUNK..])
  {
  }

  lemma {:induction false} ChunkAt(p: seq<byte>, k: nat)
    requires k < |Chunks(p)|
    ensures k * MAX_CHUNK < |p|
    ensures Chunks(p)[k] == p[ChunkStart(|p|, k)..ChunkStart(|p|, k + 1)]
  {
    hide Chunks;
    ChunksUnfold(p);
    if |p| <= MAX_CHUNK {
      assert k == 0 && p[0..|p|] == p;
    } else if k == 0 {
      assert Chunks(p)[0] == p[..MAX_CHUNK] == p[0..MAX_CHUNK];
    } else {
      var q := p[MAX_CHUNK..];
      ChunkAt(q, k - 1);
      assert Chunks(p)[k] == Chunks(q)[k - 1];
      var start, end := ChunkStart(|q|, k - 1), ChunkStart(|q|, k);
      SliceOfDrop(p, MAX_CHUNK, start, end);
    }
  }

  lemma SliceOfDrop(p: seq<byte>, m: nat, start: nat, end: nat)
    requires m <= |p| && start <= end <= |p| - m
    ensures p[m..][start..end] == p[m + start..m + end]
  {
  }

  lemma {:induction false} ChunkCount(p: seq<byte>)
    ensures |Chunks(p)| * MAX_CHUNK >= |p|
    ensures p != [] ==> (|Chunks(p)| - 1) * MAX_CHUNK < |p|
  {
    if |p| > MAX_CHUNK {
      ChunkCount(p[MAX_CHUNK..]);
    }
  }

  /** After k chunks the account holds exactly the first bytes of the plaintext. */
  lemma {:induction false} WrittenPrefix(r: Request, p: seq<byte>, k: nat)
    requires Fresh(r, |p|) && k <= |Chunks(p)|
    ensures var r' := AppendAll(r, Chunks(p)[..k]);
            && r'.prefix == r.prefix && r'.total == |p| && |r'.body| == |r.body|
            && r'.written == ChunkStart(|p|, k) && r'.body[..r'.written] == p[..r'.written]
  {
    if k > 0 {
      var cs := Chunks(p)[..k];
      assert cs[..k - 1] == Chunks(p)[..k - 1] && cs[k - 1] == Chunks(p)[k - 1];
      WrittenPrefix(r, p, k - 1);
      ChunkAt(p, k - 1);
    }
  }

  // ---- reading ----

  function AccountBytes(r: Request): (d: seq<byte>)
    requires ValidRequest(r)
    ensures |d| == HEADER_END + |r.body|
  {
    r.prefix + ToLe(r.total, 4) + ToLe(r.written, 4) + r.body
  }

  function U32At(data: seq<byte>, offset: nat): nat
    requires offset + 4 <= |data|
  {
    FromLe(data[offset..offset + 4])
  }

  /** `read_decrypted_on_chain` on the account's bytes. */
  datatype Reading = TooSmall | Incomplete(written: nat, total: nat) | Decrypted(bytes: seq<byte>) | OutOfRange

  function ReadDecrypted(data: seq<byte>): Reading {
    if |data| < HEADER_END then TooSmall
    else
      var total, written := U32At(data, TOTAL_LEN), U32At(data, BYTES_WRITTEN);
      if written != total then Incomplete(written, total)
      else if HEADER_END + total > |data| then OutOfRange
      else Decrypted(data[HEADER_END..HEADER_END + total])
  }

  /** `parse_decryption_status` for a type of the given width. */
  datatype Status = Pending | InProgress(written: nat, total: nat) | Complete(bytes: seq<byte>)

  function ParseStatus(data: seq<byte>, width: nat): Option<Status> {
    if |data| < HEADER_END then None
    else
      var total, written := U32At(data, TOTAL_LEN), U32At(data, BYTES_WRITTEN);
      if written == 0 then Some(Pending)
      else if written < total then Some(InProgress(written, total))
      else if |data| < HEADER_END + total || total != width then None
      else Some(Complete(data[HEADER_END..HEADER_END + total]))
  }

  /** `parse_decrypted`. */
  function ParseDecrypted(data: seq<byte>, width: nat): Option<seq<byte>> {
    match ParseStatus(data, width)
    case Some(Complete(bytes)) => Some(bytes)
    case _ => None
  }

  lemma HeaderReads(r: Request)
    requires ValidRequest(r)
    ensures U32At(AccountBytes(r), TOTAL_LEN) == r.total
    ensures U32At(AccountBytes(r), BYTES_WRITTEN) == r.written
    ensures AccountBytes(r)[HEADER_END..HEADER_END + r.total] == r.body[..r.total]
  {
    hide FromLe, ToLe, Pow2;
    var d := AccountBytes(r);
    assert d[TOTAL_LEN..TOTAL_LEN + 4] == ToLe(r.total, 4);
    assert d[BYTES_WRITTEN..BYTES_WRITTEN + 4] == ToLe(r.written, 4);
    FromToLe(r.total, 4);
    FromToLe(r.written, 4);
    Pow2Literals();
  }

  /** Chunked decryption is all or nothing: no proper prefix of the transactions reads as complete,
      and after the last one both readers return exactly the plaintext. */
  lemma AllOrNothing(r: Request, p: seq<byte>, t: FheType, k: nat)
    requires |p| == ByteWidth(t) && Fresh(r, |p|) && k <= |Chunks(p)|
    ensures var d := AccountBytes(AppendAll(r, Chunks(p)[..k]));
            if k < |Chunks(p)| then
              && ParseDecrypted(d, ByteWidth(t)) == None
              && ReadDecrypted(d) == Incomplete(k * MAX_CHUNK, |p|)
              && ParseStatus(d, ByteWidth(t)) == Some(if k == 0 then Pending else InProgress(k * MAX_CHUNK, |p|))
            else
              ParseDecrypted(d, ByteWidth(t)) == Some(p) && ReadDecrypted(d) == Decrypted(p)
  {
    hide ByteWidth, U32At;
    WrittenPrefix(r, p, k);
    ChunkCount(p);
    HeaderReads(AppendAll(r, Chunks(p)[..k]));
    if k < |Chunks(p)| {
      ChunkAt(p, k);
    } else {
      assert p[..|p|] == p;
    }
  }

  /** The value a reader hands out, if any. */
  function Handed(reading: Reading): Option<seq<byte>> {
    if reading.Decrypted? then Some(reading.bytes) else None
  }

  /** On any bytes at all, the two readers hand out the same value, or neither does, except when a
      finished request has another type's length, or claims to have more bytes than it announced. */
  lemma ReadersAgreeIff(data: seq<byte>, width: nat)
    requires width > 0
    ensures Handed(ReadDecrypted(data)) == ParseDecrypted(data, width)
       <==> (|data| >= HEADER_END ==>
               var total, written := U32At(data, TOTAL_LEN), U32At(data, BYTES_WRITTEN);
               |data| < HEADER_END + total || if written == total then total == width else written < total || total != width)
  {
  }

  // ---- the layout, and what it takes to be handed a value ----

  /** Chunks are 700 bytes long, except that the last may be shorter, and their number is the length divided
      by 700, rounded up. */
  lemma ChunkSizes(p: seq<byte>, k: nat)
    requires k < |Chunks(p)|
    ensures |Chunks(p)| == (|p| + 699) / 700
    ensures 0 < |Chunks(p)[k]| <= 700 && (k < |Chunks(p)| - 1 ==> |Chunks(p)[k]| == 700)
  {
    ChunkAt(p, k);
    ChunkCount(p);
    hide Chunks;
  }

  /** The lengths announced and written are the two little-endian words at 99 and 103, and the body starts
      at 107. */
  lemma AccountLayout(r: Request, k: nat)
    requires ValidRequest(r) && k < 4
    ensures AccountBytes(r)[99 + k] == Quotient(r.total, Pow2(8 * k)) % 256
    ensures AccountBytes(r)[103 + k] == Quotient(r.written, Pow2(8 * k)) % 256
    ensures AccountBytes(r)[..99] == r.prefix && AccountBytes(r)[107..] == r.body
  {
    hide ToLe, Pow2;
    ToLeAt(r.total, 4, k);
    ToLeAt(r.written, 4, k);
  }

  /** On any account bytes, each reader hands out a value only when all announced bytes are written and
      there, and then exactly those; the parser also wants a nonempty value of the type's width. */
  lemma HandedOutIff(data: seq<byte>, width: nat, bytes: seq<byte>)
    ensures ReadDecrypted(data) == Decrypted(bytes)
       <==> |data| >= 107 && U32At(data, 103) == U32At(data, 99) && |data| >= 107 + U32At(data, 99)
            && bytes == data[107..107 + U32At(data, 99)]
    ensures ParseDecrypted(data, width) == Some(bytes)
       <==> |data| >= 107 && 0 < U32At(data, 103) && U32At(data, 103) >= U32At(data, 99) && |data| >= 107 + U32At(data, 99)
            && U32At(data, 99) == width && bytes == data[107..107 + width]
  {
    hide U32At;
  }

  /** What they report otherwise. */
  lemma ReportedOtherwise(data: seq<byte>, width: nat)
    ensures |data| < 107 ==> ReadDecrypted(data) == TooSmall && ParseStatus(data, width) == None
    ensures |data| >= 107 ==>
              var total, written := U32At(data, 99), U32At(data, 103);
              && (written != total ==> ReadDecrypted(data) == Incomplete(written, total))
              && (written == total && |data| < 107 + total ==> ReadDecrypted(data) == OutOfRange)
              && (written == 0 ==> ParseStatus(data, width) == Some(Pending))
              && (0 < written < total ==> ParseStatus(data, width) == Some(InProgress(written, total)))
              && (0 < written && total <= written && (|data| < 107 + total || total != width) ==> ParseStatus(data, width) == None)
  {
    hide U32At;
  }
}
