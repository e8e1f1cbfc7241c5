/**
The resumable two-part write: a response header in the write buffer, and a mapped file behind it, are sent by
writev calls that may stop anywhere. The state records where every byte on the wire was taken from.

As written, a short write that ends inside the header compares the count of all bytes sent with a length that
earlier short writes have already reduced, and reduces it by that count again. Repaired uses m_write_idx.
*/
module GatherWrite {
  import opened SourceVersion

  /** Position in the write buffer, or position relative to the start of the mapped file. */
  datatype Origin = FromHeader(i: nat) | FromFile(j: int)

  /**
  header and file are the lengths of the two parts; base0, len0, base1 and len1 are m_iv, with base1 relative
  to m_file_address; parts is m_iv_count; sent and toSend are the two byte counters.
  */
  datatype Writer = Writer(header: nat, file: nat, parts: nat, base0: nat, len0: nat, base1: int, len1: nat,
                           sent: nat, toSend: nat, wire: seq<Origin>)

  /** What process_write sets up. */
  function Start(header: nat, file: nat, parts: nat): Writer {
    Writer(header, file, parts, 0, header, 0, file, 0, header + file, [])
  }

  function HeaderPart(base: nat, len: nat): (r: seq<Origin>)
    ensures |r| == len
  {
    seq(len, k requires 0 <= k < len => FromHeader(base + k))
  }

  function FilePart(base: int, len: nat): (r: seq<Origin>)
    ensures |r| == len
  {
    seq(len, k requires 0 <= k < len => FromFile(base + k))
  }

  /** What writev is offered. */
  function Offered(w: Writer): (r: seq<Origin>)
    ensures |r| == w.len0 + if w.parts == 2 then w.len1 else 0
  {
    HeaderPart(w.base0, w.len0) + if w.parts == 2 then FilePart(w.base1, w.len1) else []
  }

  /** All of the header, and then all of the file. */
  function Response(header: nat, file: nat): (r: seq<Origin>)
    ensures |r| == header + file
  {
    HeaderPart(0, header) + FilePart(0, file)
  }

  /** Kept by every pass: writev is never offered more than is left to send. */
  ghost predicate Fits(ver: Version, w: Writer) {
    && (w.parts == 2 || (w.parts == 1 && w.file == 0))
    && w.sent + w.toSend == w.header + w.file && |w.wire| == w.sent
    && (|| (w.len0 == 0 && (w.parts == 2 ==> w.len1 == w.toSend) && (ver == Repaired ==> w.sent >= w.header))
        || (w.len0 + w.sent <= w.header && (w.parts == 2 ==> w.len1 == w.file)))
  }

  /** One pass of the loop in write, in which writev has taken n bytes. */
  function Advance(ver: Version, w: Writer, n: nat): (r: Writer)
    requires Fits(ver, w) && n <= |Offered(w)|
    ensures Fits(ver, r) && r.sent + r.toSend == w.sent + w.toSend
  {
    var sent, toSend := w.sent + n, w.toSend - n;
    var w1 := w.(sent := sent, toSend := toSend, wire := w.wire + Offered(w)[..n]);
    if sent >= (if ver == AsWritten then w.len0 else w.header) then
      w1.(len0 := 0, base1 := sent - w.header, len1 := toSend)
    else
      w1.(base0 := sent, len0 := (if ver == AsWritten then w.len0 else w.header) - sent)
  }

  /** writev takes something if it is offered something, and is called while bytes are left to send. */
  ghost predicate CanTake(w: Writer, n: nat) {
    w.toSend > 0 && n <= |Offered(w)| && (n == 0 ==> Offered(w) == [])
  }

  /** A schedule of results of writev. */
  ghost predicate Schedule(ver: Version, w: Writer, ns: seq<nat>)
    requires Fits(ver, w)
    decreases |ns|
  {
    ns != [] ==> CanTake(w, ns[0]) && Schedule(ver, Advance(ver, w, ns[0]), ns[1..])
  }

  function RunWrites(ver: Version, w: Writer, ns: seq<nat>): (r: Writer)
    requires Fits(ver, w) && Schedule(ver, w, ns)
    ensures Fits(ver, r)
    decreases |ns|
  {
    if ns == [] then w else RunWrites(ver, Advance(ver, w, ns[0]), ns[1..])
  }

  // ---------- The repaired code ----------

  /** What is left to send is exactly what is offered. */
  ghost predicate OnTrack(w: Writer) {
    && Fits(Repaired, w)
    && w.wire == Response(w.header, w.file)[..w.sent]
    && (if w.sent < w.header then w.base0 == w.sent && w.len0 == w.header - w.sent else w.len0 == 0)
    && (w.parts == 2 ==>
      if w.sent < w.header then w.base1 == 0 && w.len1 == w.file
      else w.base1 == w.sent - w.header && w.len1 == w.toSend)
  }

  lemma OffersTheRest(w: Writer)
    requires OnTrack(w)
    ensures Offered(w) == Response(w.header, w.file)[w.sent..]
  {
  }

  lemma TakesFromTheRest(w: Writer, n: nat)
    requires OnTrack(w) && n <= |Offered(w)|
    ensures w.wire + Offered(w)[..n] == Response(w.header, w.file)[..w.sent + n]
  {
    OffersTheRest(w);
    var r := Response(w.header, w.file);
    assert r[w.sent..][..n] == r[w.sent..w.sent + n];
  }

  lemma AdvanceOnTrack(w: Writer, n: nat)
    requires OnTrack(w) && CanTake(w, n)
    ensures OnTrack(Advance(Repaired, w, n))
  {
    hide Offered, Response;
    TakesFromTheRest(w, n);
  }

  /**
  Over every schedule of short writes: what has been sent is a prefix of the response, nothing is lost or
  repeated, all that is left is offered again, and when nothing is left the whole response has been sent.
  */
  lemma {:induction false} RepairedWrite(w: Writer, ns: seq<nat>)
    requires OnTrack(w) && Schedule(Repaired, w, ns)
    ensures var t := RunWrites(Repaired, w, ns);
            && OnTrack(t) && t.header == w.header && t.file == w.file
            && t.wire <= Response(w.header, w.file)
            && t.sent + t.toSend == w.sent + w.toSend
            && |Offered(t)| == t.toSend
            && (t.toSend == 0 <==> t.wire == Response(w.header, w.file))
    decreases |ns|
  {
    hide Response, Offered;
    if ns == [] {
      OffersTheRest(w);
    } else {
      AdvanceOnTrack(w, ns[0]);
      RepairedWrite(Advance(Repaired, w, ns[0]), ns[1..]);
    }
  }

  // ---------- The code as written ----------

  /** How many of the writes end strictly inside the header, when sent bytes have gone before. */
  function EndInHeader(header: nat, sent: nat, ns: seq<nat>): nat
    decreases |ns|
  {
    if ns == [] then 0
    else (if sent + ns[0] < header then 1 else 0) + EndInHeader(header, sent + ns[0], ns[1..])
  }

  lemma {:induction false} EndInHeaderAfter(header: nat, sent: nat, ns: seq<nat>)
    requires sent >= header
    ensures EndInHeader(header, sent, ns) == 0
    decreases |ns|
  {
    if ns != [] {
      EndInHeaderAfter(header, sent + ns[0], ns[1..]);
    }
  }

  /** The state has left the track: the bytes offered next, or those sent already, are not the right ones. */
  ghost predicate OffTrack(w: Writer) {
    && Fits(AsWritten, w)
    && (|| (w.sent < w.header && w.base0 == w.sent && w.len0 < w.header - w.sent
            && (w.parts == 2 ==> w.base1 == 0 && w.len1 == w.file))
        || (w.sent < w.header && w.len0 == 0 && (w.parts == 2 ==> w.base1 < 0))
        || Wrong(w))
  }

  ghost predicate Wrong(w: Writer) {
    !(w.wire <= Response(w.header, w.file))
  }

  lemma WrongStays(w: Writer, n: nat)
    requires Fits(AsWritten, w) && Wrong(w) && n <= |Offered(w)|
    ensures Wrong(Advance(AsWritten, w, n))
  {
    var t := Advance(AsWritten, w, n);
    assert w.wire == t.wire[..|w.wire|];
  }

  /** A byte of the file that is sent while header bytes are due is wrong. */
  lemma FileByteTooEarly(w: Writer, n: nat)
    requires Fits(AsWritten, w) && w.sent < w.header && w.parts == 2 && w.len0 < w.header - w.sent
    requires w.len0 < n <= |Offered(w)|
    ensures Wrong(Advance(AsWritten, w, n))
  {
    var t := Advance(AsWritten, w, n);
    var k := w.sent + w.len0;
    assert t.wire[k] == Offered(w)[w.len0];
    assert t.wire[k].FromFile?;
    assert Response(w.header, w.file)[k] == FromHeader(k);
  }

  lemma OffTrackStays(w: Writer, n: nat)
    requires OffTrack(w) && CanTake(w, n)
    ensures OffTrack(Advance(AsWritten, w, n))
  {
    hide Response;
    if Wrong(w) {
      WrongStays(w, n);
    } else if n > w.len0 {
      FileByteTooEarly(w, n);
    }
  }

  /** The second write that ends inside the header leaves the track. */
  lemma LeavesTrack(w: Writer, n: nat)
    requires OnTrack(w) && Fits(AsWritten, w) && 0 < w.sent < w.header && CanTake(w, n) && w.sent + n < w.header
    ensures OffTrack(Advance(AsWritten, w, n))
  {
    hide Response;
  }

  lemma StaysOnTrack(w: Writer, n: nat)
    requires OnTrack(w) && Fits(AsWritten, w) && CanTake(w, n) && (w.sent == 0 || w.sent + n >= w.header)
    ensures OnTrack(Advance(AsWritten, w, n))
  {
    hide Offered, Response;
    TakesFromTheRest(w, n);
  }

  lemma {:induction false} OffTrackRun(w: Writer, ns: seq<nat>)
    requires OffTrack(w) && Fits(AsWritten, w) && Schedule(AsWritten, w, ns)
    ensures var t := RunWrites(AsWritten, w, ns);
            OffTrack(t) && t.header == w.header && t.file == w.file
    decreases |ns|
  {
    hide OffTrack;
    if ns != [] {
      OffTrackStays(w, ns[0]);
      OffTrackRun(Advance(AsWritten, w, ns[0]), ns[1..]);
    }
  }

  /**
  The code as written stays right exactly as long as at most one write ends strictly inside the header,
  counting one that has happened before.
  */
  lemma {:induction false} AsWrittenRun(w: Writer, ns: seq<nat>)
    requires OnTrack(w) && Fits(AsWritten, w) && Schedule(AsWritten, w, ns)
    ensures var t := RunWrites(AsWritten, w, ns);
            && t.header == w.header && t.file == w.file
            && if (if 0 < w.sent < w.header then 1 else 0) + EndInHeader(w.header, w.sent, ns) <= 1
               then OnTrack(t) else OffTrack(t)
    decreases |ns|
  {
    hide Response, Offered, OffTrack, OnTrack, Advance, Fits;
    if ns != [] {
      var n := ns[0];
      var t := Advance(AsWritten, w, n);
      NonEmptyOffer(w);
      AdvanceCounts(w, n);
      if 0 < w.sent && w.sent + n < w.header {
        LeavesTrack(w, n);
        OffTrackRun(t, ns[1..]);
      } else {
        StaysOnTrack(w, n);
        AsWrittenRun(t, ns[1..]);
        if w.sent + n >= w.header {
          EndInHeaderAfter(w.header, w.sent + n, ns[1..]);
        }
      }
    }
  }

  lemma AdvanceCounts(w: Writer, n: nat)
    requires Fits(AsWritten, w) && CanTake(w, n)
    ensures var t := Advance(AsWritten, w, n);
            t.header == w.header && t.file == w.file && t.sent == w.sent + n
  {
    hide Offered;
  }

  lemma NonEmptyOffer(w: Writer)
    requires OnTrack(w)
    ensures |Offered(w)| == w.toSend
  {
    OffersTheRest(w);
  }

  /**
  A response that the code as written has sent completely is the right one if and only if at most one write
  ended strictly inside the header. Until then everything sent is a prefix of it.
  */
  lemma AsWrittenWrite(w: Writer, ns: seq<nat>)
    requires OnTrack(w) && w.sent == 0 && Fits(AsWritten, w) && Schedule(AsWritten, w, ns)
    ensures var t := RunWrites(AsWritten, w, ns);
            && (t.toSend == 0 ==> (t.wire == Response(w.header, w.file) <==> EndInHeader(w.header, 0, ns) <= 1))
            && (EndInHeader(w.header, 0, ns) <= 1 ==> t.wire <= Response(w.header, w.file) && |Offered(t)| == t.toSend)
  {
    hide Offered;
    AsWrittenRun(w, ns);
    var t := RunWrites(AsWritten, w, ns);
    if EndInHeader(w.header, 0, ns) <= 1 {
      NonEmptyOffer(t);
    }
  }

  /** A page without a file of which less is offered than is left, and nothing once len0 is 0. */
  ghost predicate Starved(w: Writer) {
    && Fits(AsWritten, w) && w.parts == 1
    && w.sent < w.header && w.len0 < w.header - w.sent && |Offered(w)| < w.toSend
  }

  lemma StarvedStays(w: Writer, n: nat)
    requires Starved(w) && CanTake(w, n)
    ensures Starved(Advance(AsWritten, w, n))
  {
  }

  lemma PageStarves(w: Writer, n: nat)
    requires OnTrack(w) && Fits(AsWritten, w) && w.parts == 1
    requires 0 < w.sent < w.header && CanTake(w, n) && w.sent + n < w.header
    ensures Starved(Advance(AsWritten, w, n))
  {
    hide Response;
  }

  lemma {:induction false} StarvedRun(w: Writer, ns: seq<nat>)
    requires Fits(AsWritten, w) && Starved(w) && Schedule(AsWritten, w, ns)
    ensures Starved(RunWrites(AsWritten, w, ns))
    decreases |ns|
  {
    hide Starved;
    if ns != [] {
      StarvedStays(w, ns[0]);
      StarvedRun(Advance(AsWritten, w, ns[0]), ns[1..]);
    }
  }

  /** A page without a file is never sent completely once a second write has ended strictly inside it. */
  lemma {:induction false} PageNeverCompletes(w: Writer, ns: seq<nat>)
    requires OnTrack(w) && Fits(AsWritten, w) && w.parts == 1 && Schedule(AsWritten, w, ns)
    requires (if 0 < w.sent < w.header then 1 else 0) + EndInHeader(w.header, w.sent, ns) >= 2
    ensures Starved(RunWrites(AsWritten, w, ns)) && RunWrites(AsWritten, w, ns).toSend > 0
    decreases |ns|
  {
    hide Response, Offered, Starved;
    var n := ns[0];
    NonEmptyOffer(w);
    if 0 < w.sent && w.sent + n < w.header {
      PageStarves(w, n);
      StarvedRun(Advance(AsWritten, w, n), ns[1..]);
    } else if w.sent + n < w.header {
      StaysOnTrack(w, n);
      PageNeverCompletes(Advance(AsWritten, w, n), ns[1..]);
    }
    StarvedHasMore(RunWrites(AsWritten, w, ns));
  }

  lemma StarvedHasMore(w: Writer)
    requires Starved(w)
    ensures w.toSend > 0
  {
  }

  lemma FirstWrite(w: Writer, n: nat, ns: seq<nat>)
    requires Fits(AsWritten, w) && CanTake(w, n) && Schedule(AsWritten, Advance(AsWritten, w, n), ns)
    ensures Schedule(AsWritten, w, [n] + ns)
    ensures RunWrites(AsWritten, w, [n] + ns) == RunWrites(AsWritten, Advance(AsWritten, w, n), ns)
  {
    hide Offered, Advance;
    assert ([n] + ns)[1..] == ns;
  }

  lemma FourWrites(header: nat, file: nat) returns (w1: Writer, w2: Writer, w3: Writer, w4: Writer)
    requires header > 3 && file > 0
    ensures var w := Start(header, file, 2);
            && Fits(AsWritten, w) && CanTake(w, 1) && w1 == Advance(AsWritten, w, 1)
            && CanTake(w1, 1) && w2 == Advance(AsWritten, w1, 1)
            && CanTake(w2, header - 3 + file) && w3 == Advance(AsWritten, w2, header - 3 + file)
            && CanTake(w3, 1) && w4 == Advance(AsWritten, w3, 1) && w4.toSend == 0
  {
    hide Offered;
    var w := Start(header, file, 2);
    w1 := Advance(AsWritten, w, 1);
    w2 := Advance(AsWritten, w1, 1);
    w3 := Advance(AsWritten, w2, header - 3 + file);
    w4 := Advance(AsWritten, w3, 1);
  }

  /** Two one-byte writes at the start of any longer header: a header byte is lost and a file byte is repeated. */
  lemma AsWrittenLosesHeader(header: nat, file: nat)
    requires header > 3 && file > 0
    ensures var w, ns := Start(header, file, 2), [1] + ([1] + ([header - 3 + file] + [1]));
            && Schedule(AsWritten, w, ns)
            && RunWrites(AsWritten, w, ns).toSend == 0
            && RunWrites(AsWritten, w, ns).wire != Response(header, file)
  {
    hide Response, Offered, Advance, RunWrites;
    var w, n := Start(header, file, 2), header - 3 + file;
    var w1, w2, w3, w4 := FourWrites(header, file);
    assert [1] + [] == [1];
    NothingWritten(w4);
    FirstWrite(w3, 1, []);
    FirstWrite(w2, n, [1]);
    FirstWrite(w1, 1, [n] + [1]);
    FirstWrite(w, 1, [1] + ([n] + [1]));
    var ns := [1] + ([1] + ([n] + [1]));
    TwoInHeader(header, n);
    StartsOnTrack(header, file);
    AsWrittenWrite(w, ns);
  }

  lemma StartsOnTrack(header: nat, file: nat)
    ensures OnTrack(Start(header, file, 2)) && Fits(AsWritten, Start(header, file, 2))
  {
  }

  lemma NothingWritten(w: Writer)
    requires Fits(AsWritten, w)
    ensures Schedule(AsWritten, w, []) && RunWrites(AsWritten, w, []) == w
  {
  }

  lemma TwoInHeader(header: nat, n: nat)
    requires header > 3
    ensures EndInHeader(header, 0, [1] + ([1] + ([n] + [1]))) >= 2
  {
    var ns := [1] + ([1] + ([n] + [1]));
    assert ns[1..] == [1] + ([n] + [1]) && ns[1..][1..] == [n] + [1];
    assert EndInHeader(header, 1, ns[1..]) == 1 + EndInHeader(header, 2, ns[1..][1..]);
  }

  // ---------- The bytes ----------

  /** The byte taken from a position; '?' stands for memory outside the header and the file. */
  function ByteAt(o: Origin, header: string, file: string): char {
    match o
    case FromHeader(i) => if i < |header| then header[i] else '?'
    case FromFile(j) => if 0 <= j < |file| then file[j] else '?'
  }

  function BytesOf(wire: seq<Origin>, header: string, file: string): string {
    seq(|wire|, k requires 0 <= k < |wire| => ByteAt(wire[k], header, file))
  }

  lemma ResponseBytes(header: string, file: string)
    ensures BytesOf(Response(|header|, |file|), header, file) == header + file
  {
  }
}
