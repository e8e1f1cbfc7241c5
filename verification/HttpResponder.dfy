/**
The answering half of a connection object: the write buffer is filled by formatted appends, and write sends
it and the mapped file, taking up after a short write where the previous call stopped.
*/
module HttpResponder {
  import opened CStrings
  import opened SourceVersion
  import opened HttpRequest
  import opened HttpGrammar
  import opened HttpResponse
  import opened GatherWrite

  /** What writev reports. */
  datatype WriteResult = Sent(n: nat) | WouldBlock | Failed

  /** How a call of write ends; Idle is a call with nothing to send. */
  datatype WriteEnd = Idle | Complete | Blocked | Broken

  /** The results are possible ones, and there are enough of them for one call of write. */
  ghost predicate Possible(ver: Version, w: Writer, results: seq<WriteResult>)
    requires Fits(ver, w)
    decreases |results|
  {
    w.toSend > 0 ==>
      && results != []
      && match results[0]
         case Sent(n) => CanTake(w, n) && Possible(ver, Advance(ver, w, n), results[1..])
         case _ => true
  }

  lemma {:induction false} ScheduleAppend(ver: Version, w: Writer, ns: seq<nat>, n: nat)
    requires Fits(ver, w) && Schedule(ver, w, ns) && CanTake(RunWrites(ver, w, ns), n)
    ensures Schedule(ver, w, ns + [n])
    ensures RunWrites(ver, w, ns + [n]) == Advance(ver, RunWrites(ver, w, ns), n)
    decreases |ns|
  {
    hide Offered;
    if ns == [] {
      assert (ns + [n])[1..] == [];
    } else {
      assert (ns + [n])[1..] == ns[1..] + [n];
      ScheduleAppend(ver, Advance(ver, w, ns[0]), ns[1..], n);
    }
  }

  class Responder {
    const writeBuf: array<char>
    var writeIdx: nat
    var file: string
    var ivCount: nat
    var base0: nat
    var len0: nat
    var base1: int
    var len1: nat
    var bytesHaveSent: nat
    var bytesToSend: nat
    var linger: bool
    ghost var wire: seq<Origin>

    ghost predicate Valid()
      reads this
    {
      writeBuf.Length == WRITE_BUFFER_SIZE && writeIdx < WRITE_BUFFER_SIZE
    }

    ghost function View(): Writer
      reads this
    {
      Writer(writeIdx, if ivCount == 2 then |file| else 0, ivCount, base0, len0, base1, len1,
             bytesHaveSent, bytesToSend, wire)
    }

    constructor (linger: bool)
      ensures Valid() && fresh(writeBuf) && writeIdx == 0 && bytesHaveSent == 0 && bytesToSend == 0 && wire == []
      ensures this.linger == linger
    {
      writeBuf := new char[WRITE_BUFFER_SIZE](_ => NUL);
      writeIdx, file, ivCount := 0, "", 0;
      base0, len0, base1, len1 := 0, 0, 0, 0;
      bytesHaveSent, bytesToSend := 0, 0;
      this.linger := linger;
      wire := [];
    }

    /** The part of init that concerns answering. */
    method Reset()
      requires Valid()
      modifies this, writeBuf
      ensures Valid() && writeIdx == 0 && bytesHaveSent == 0 && bytesToSend == 0 && !linger && wire == []
    {
      writeIdx, bytesHaveSent, bytesToSend, linger, wire := 0, 0, 0, false, [];
      forall k | 0 <= k < writeBuf.Length {
        writeBuf[k] := NUL;
      }
    }

    /**
    add_response, given the formatted text: it is stored as far as vsnprintf finds room, and counts only if
    all of it was stored with a byte to spare.
    */
    method AddResponse(text: string) returns (ok: bool)
      requires Valid()
      modifies this`writeIdx, writeBuf
      ensures Valid() && ok == (|text| < WRITE_BUFFER_SIZE - 1 - old(writeIdx))
      ensures writeBuf[..writeIdx] == old(writeBuf[..writeIdx]) + if ok then text else ""
    {
      if writeIdx >= WRITE_BUFFER_SIZE {
        return false;
      }
      var size := WRITE_BUFFER_SIZE - 1 - writeIdx;
      var k := 0;
      while k < |text| && k + 1 < size
        invariant 0 <= k <= |text| && writeIdx == old(writeIdx)
        invariant k == 0 || k + 1 <= size
        invariant writeBuf[..writeIdx] == old(writeBuf[..writeIdx])
        invariant writeBuf[writeIdx..writeIdx + k] == text[..k]
      {
        writeBuf[writeIdx + k] := text[k];
        k := k + 1;
      }
      if size > 0 {
        writeBuf[writeIdx + k] := NUL;
      }
      if |text| >= size {
        return false;
      }
      ghost var before := writeBuf[..writeIdx];
      assert text[..k] == text;
      assert writeBuf[..writeIdx + |text|] == before + writeBuf[writeIdx..writeIdx + |text|];
      writeIdx := writeIdx + |text|;
      return true;
    }

    method AddStatusLine(status: nat, title: string) returns (ok: bool)
      requires Valid()
      modifies this`writeIdx, writeBuf
      ensures Valid() && ok == (|StatusLine(status, title)| < WRITE_BUFFER_SIZE - 1 - old(writeIdx))
      ensures writeBuf[..writeIdx] == old(writeBuf[..writeIdx]) + if ok then StatusLine(status, title) else ""
    {
      ok := AddResponse(StatusLine(status, title));
    }

    /** The three header lines; a later one is added only if the earlier ones were. */
    method AddHeaders(n: nat) returns (ok: bool)
      requires Valid()
      requires writeIdx + |LengthLine(n)| + |LingerLine(linger)| + 6 < WRITE_BUFFER_SIZE - 1
      modifies this`writeIdx, writeBuf
      ensures Valid() && ok
      ensures writeBuf[..writeIdx] ==
              old(writeBuf[..writeIdx]) + (LengthLine(n) + CRLF) + (LingerLine(linger) + CRLF) + CRLF
    {
      hide LengthLine, LingerLine;
      ok := AddResponse(LengthLine(n) + CRLF);
      if ok {
        ok := AddResponse(LingerLine(linger) + CRLF);
      }
      if ok {
        ok := AddResponse(CRLF);
      }
    }

    /** A status line, the headers for a payload of n bytes, and a page. */
    method AddAnswer(status: nat, title: string, n: nat, page: string) returns (ok: bool)
      requires Valid() && writeIdx == 0
      requires |StatusLine(status, title)| < 100 && |LengthLine(n)| < 100 && |LingerLine(linger)| < 100 && |page| < 100
      modifies this`writeIdx, writeBuf
      ensures Valid() && ok
      ensures writeBuf[..writeIdx] ==
              StatusLine(status, title) + (LengthLine(n) + CRLF) + (LingerLine(linger) + CRLF) + CRLF + page
    {
      hide StatusLine, LengthLine, LingerLine;
      ok := AddStatusLine(status, title);
      assert writeBuf[..writeIdx] == StatusLine(status, title);
      ok := AddHeaders(n);
      ok := AddResponse(page);
    }

    /** An error page. */
    method AddPage(code: HttpCode, status: nat, title: string, page: string) returns (ok: bool)
      requires Valid() && writeIdx == 0 && !code.FileRequest? && (status, title, page) == PageOf(code)
      requires PayloadSize(code, |file|) <= INT_MAX
      modifies this`writeIdx, writeBuf
      ensures Valid() && ok && writeBuf[..writeIdx] == ResponseText(code, |file|, linger)
    {
      hide StatusLine, LengthLine, LingerLine, PageOf;
      TextFits(code, |file|, linger);
      ok := AddAnswer(status, title, |page|, page);
    }

    /** The headers of a file. */
    method AddFileHeaders() returns (ok: bool)
      requires Valid() && writeIdx == 0 && |file| <= INT_MAX
      modifies this`writeIdx, writeBuf
      ensures Valid() && ok && writeBuf[..writeIdx] == ResponseText(FileRequest, |file|, linger)
    {
      hide StatusLine, LengthLine, LingerLine;
      TextFits(FileRequest, |file|, linger);
      ok := AddAnswer(200, "OK", |file|, "");
    }

    /** What is stored for an empty file, before the failure that is then reported. */
    method AddEmptyPage() returns (ok: bool)
      requires Valid() && writeIdx == 0
      modifies this`writeIdx, writeBuf
      ensures Valid() && ok
    {
      TextFits(FileRequest, |EMPTY_PAGE|, linger);
      ok := AddAnswer(200, "OK", |EMPTY_PAGE|, EMPTY_PAGE);
    }

    /** Sending the write buffer and then the file is prepared. */
    method PrepareFile()
      requires Valid() && bytesHaveSent == 0 && wire == []
      modifies this`ivCount, this`base0, this`len0, this`base1, this`len1, this`bytesToSend
      ensures ivCount == 2 && OnTrack(View()) && Fits(AsWritten, View())
    {
      base0, len0, base1, len1 := 0, writeIdx, 0, |file|;
      ivCount := 2;
      bytesToSend := writeIdx + |file|;
    }

    /** Sending the write buffer alone is prepared. */
    method PrepareText()
      requires Valid() && bytesHaveSent == 0 && wire == []
      modifies this`ivCount, this`base0, this`len0, this`bytesToSend
      ensures ivCount == 1 && OnTrack(View()) && Fits(AsWritten, View())
    {
      base0, len0 := 0, writeIdx;
      ivCount := 1;
      bytesToSend := writeIdx;
    }

    /**
    process_write: an answer is prepared for exactly the codes that have one, and always fits the buffer. For an
    empty file the source falls through to the case that reports failure.
    */
    method ProcessWrite(code: HttpCode) returns (ok: bool)
      requires Valid() && writeIdx == 0 && bytesHaveSent == 0 && wire == []
      requires PayloadSize(code, |file|) <= INT_MAX
      modifies this`writeIdx, this`ivCount, this`base0, this`len0, this`base1, this`len1, this`bytesToSend, writeBuf
      ensures Valid() && ok == Answered(code, |file|)
      ensures ok ==>
                && writeBuf[..writeIdx] == ResponseText(code, |file|, linger)
                && ivCount == (if code.FileRequest? then 2 else 1)
                && OnTrack(View()) && Fits(AsWritten, View()) && bytesHaveSent == 0
    {
      hide ResponseText, OnTrack, Fits;
      var added;
      match code {
        case InternalError =>
          added := AddPage(code, 500, "Internal", ERROR_500_FORM);
          if !added { return false; }
        case BadRequestCode =>
          added := AddPage(code, 404, "Not Found", ERROR_404_FORM);
          if !added { return false; }
        case ForbiddenRequest =>
          added := AddPage(code, 403, "Forbidden", ERROR_403_FORM);
          if !added { return false; }
        case FileRequest =>
          if |file| != 0 {
            added := AddFileHeaders();
            PrepareFile();
            return true;
          }
          added := AddEmptyPage();
          return false;
        case _ =>
          return false;
      }
      PrepareText();
      return true;
    }

    /** What a pass of write's loop does after writev has taken temp bytes. */
    method Account(ver: Version, temp: nat)
      requires Fits(ver, View()) && temp <= |Offered(View())|
      modifies this`base0, this`len0, this`base1, this`len1, this`bytesHaveSent, this`bytesToSend, this`wire
      ensures View() == Advance(ver, old(View()), temp)
    {
      hide Offered;
      assert temp <= bytesToSend by { OfferFits(ver, View()); }
      wire := wire + Offered(View())[..temp];
      bytesHaveSent := bytesHaveSent + temp;
      bytesToSend := bytesToSend - temp;
      var limit := if ver == AsWritten then len0 else writeIdx;
      if bytesHaveSent >= limit {
        len0 := 0;
        base1 := bytesHaveSent - writeIdx;
        len1 := bytesToSend;
      } else {
        base0 := bytesHaveSent;
        len0 := limit - bytesHaveSent;
      }
    }

    /** write, with the results of its writev calls; ns are those that took bytes, and w the state they lead to. */
    method Write(ver: Version, results: seq<WriteResult>)
      returns (end: WriteEnd, keepOpen: bool, ghost ns: seq<nat>, ghost w: Writer)
      requires Valid() && Fits(ver, View()) && Possible(ver, View(), results)
      modifies this, writeBuf
      ensures Valid()
      ensures Schedule(ver, old(View()), ns) && w == RunWrites(ver, old(View()), ns)
      ensures |ns| <= |results| && forall k :: 0 <= k < |ns| ==> results[k] == Sent(ns[k])
      ensures match end
              case Idle => old(bytesToSend) == 0 && ns == [] && keepOpen
              case Complete => old(bytesToSend) > 0 && w.toSend == 0 && keepOpen == old(linger)
              case Blocked => w.toSend > 0 && |ns| < |results| && results[|ns|] == WouldBlock && keepOpen && View() == w
              case Broken => w.toSend > 0 && |ns| < |results| && results[|ns|] == Failed && !keepOpen
      ensures end == Idle || (end == Complete && keepOpen) ==> writeIdx == 0 && bytesToSend == 0 && bytesHaveSent == 0
    {
      hide Offered, Advance;
      ghost var start := View();
      ns := [];
      w := start;
      if bytesToSend == 0 {
        Reset();
        return Idle, true, ns, w;
      }
      var i := 0;
      while true
        invariant 0 <= i == |ns| <= |results|
        invariant Valid() && View() == w && bytesToSend > 0 && linger == old(linger)
        invariant Fits(ver, w) && Schedule(ver, start, ns) && w == RunWrites(ver, start, ns)
        invariant forall k :: 0 <= k < |ns| ==> results[k] == Sent(ns[k])
        invariant Possible(ver, w, results[i..])
        decreases |results| - i
      {
        match results[i] {
          case WouldBlock => return Blocked, true, ns, w;
          case Failed => return Broken, false, ns, w;
          case Sent(temp) =>
            ScheduleAppend(ver, start, ns, temp);
            assert results[i..][1..] == results[i + 1..];
            Account(ver, temp);
            ns, w, i := ns + [temp], View(), i + 1;
            if bytesToSend <= 0 {
              if linger {
                Reset();
                return Complete, true, ns, w;
              }
              return Complete, false, ns, w;
            }
        }
      }
    }
  }

  lemma OfferFits(ver: Version, w: Writer)
    requires Fits(ver, w)
    ensures |Offered(w)| <= w.toSend
  {
  }

  lemma TextFits(code: HttpCode, fileSize: nat, linger: bool)
    requires PayloadSize(code, fileSize) <= INT_MAX
    ensures |StatusLine(PageOf(code).0, PageOf(code).1)| < 100 && |PageOf(code).2| < 100
    ensures |LengthLine(PayloadSize(code, fileSize))| < 100 && |LingerLine(linger)| < 100
  {
    DecimalFits(PayloadSize(code, fileSize));
    DecimalFits(PageOf(code).0);
  }
}
