/**
 The environment: descriptors whose every read and write has an arbitrary outcome, the record in which callees report
 what they wait for, and the set of descriptors to wait for. A script lists the outcomes to come; an exhausted one
 would block. Results hold for all scripts.
 */
module Descriptors {
  import opened ByteStrings

  datatype ReadEvent = Arrives(bytes: Bytes) | EndOfFile | NothingYet | ReadFails(connReset: bool)
  datatype WriteEvent = Accepts(count: nat) | BufferFull | WriteFails

  datatype ReadResult = Got(bytes: Bytes) | Eof | WouldBlock | ReadError(connReset: bool)
  datatype WriteResult = Wrote(count: nat) | Full | WriteError

  /** Bounds the work left in a read script. */
  function Fuel(script: seq<ReadEvent>): nat {
    if script == [] then 0
    else 1 + (if script[0].Arrives? then |script[0].bytes| else 0) + Fuel(script[1..])
  }

  class Source {
    const fd: int
    var script: seq<ReadEvent>
    ghost var delivered: Bytes   // everything read from the descriptor so far
    ghost var ended: bool        // a read has reported end of file
    ghost var errored: bool      // a read has failed
    ghost var dry: bool          // the last read found nothing to deliver
    ghost var tries: nat         // how often it was read

    constructor (fd: int, script: seq<ReadEvent>)
      ensures this.fd == fd && this.script == script && delivered == [] && !ended && !errored && !dry && tries == 0
    {
      this.fd, this.script := fd, script;
      delivered, ended, errored, dry, tries := [], false, false, false, 0;
    }

    /** read(2): a nonempty part of what has arrived, end of file, EWOULDBLOCK or an error. */
    method Read(limit: nat) returns (r: ReadResult)
      requires limit > 0
      modifies this
      ensures r.Got? ==> 0 < |r.bytes| <= limit && delivered == old(delivered) + r.bytes
      ensures !r.Got? ==> delivered == old(delivered)
      ensures r.Got? ==> Fuel(script) < Fuel(old(script))
      ensures Fuel(script) <= Fuel(old(script))
      ensures ended == (old(ended) || r.Eof?) && errored == (old(errored) || r.ReadError?) && dry == r.WouldBlock?
      ensures tries == old(tries) + 1
    {
      dry, tries := false, tries + 1;
      if script == [] {
        dry := true;
        return WouldBlock;
      }
      var e := script[0];
      match e {
        case Arrives(bytes) =>
          if bytes == [] {
            script, dry := script[1..], true;
            return WouldBlock;
          } else if |bytes| <= limit {
            script := script[1..];
            r := Got(bytes);
          } else {
            script := [Arrives(bytes[limit..])] + script[1..];
            assert script[1..] == old(script)[1..];
            r := Got(bytes[..limit]);
          }
          delivered := delivered + r.bytes;
        case EndOfFile =>
          script := script[1..];
          ended := true;
          r := Eof;
        case NothingYet =>
          script, dry := script[1..], true;
          r := WouldBlock;
        case ReadFails(connReset) =>
          script := script[1..];
          errored := true;
          r := ReadError(connReset);
      }
    }
  }

  class Sink {
    const fd: int
    var script: seq<WriteEvent>
    ghost var written: Bytes     // everything the descriptor has accepted so far
    ghost var broken: bool       // a write has failed
    ghost var full: bool         // the last write found no room
    ghost var tries: nat         // how often it was written to

    constructor (fd: int, script: seq<WriteEvent>)
      ensures this.fd == fd && this.script == script && written == [] && !broken && !full && tries == 0
    {
      this.fd, this.script, written, broken, full, tries := fd, script, [], false, false, 0;
    }

    /** write(2) of at least one byte: accepts a nonempty prefix, would block, or fails. */
    method Write(bytes: Bytes) returns (r: WriteResult)
      requires bytes != []
      modifies this
      ensures r.Wrote? ==> 0 < r.count <= |bytes| && written == old(written) + bytes[..r.count]
      ensures !r.Wrote? ==> written == old(written)
      ensures broken == (old(broken) || r.WriteError?) && full == r.Full? && tries == old(tries) + 1
    {
      full, tries := script == [] || script[0].BufferFull?, tries + 1;
      if script == [] {
        return Full;
      }
      var e := script[0];
      script := script[1..];
      match e {
        case Accepts(count) =>
          var n := if count == 0 then 1 else if count > |bytes| then |bytes| else count;
          written := written + bytes[..n];
          r := Wrote(n);
        case BufferFull =>
          r := Full;
        case WriteFails =>
          broken := true;
          r := WriteError;
      }
    }
  }

  datatype AwaitState = Ready | AwaitRead | AwaitWrite

  /** DataProcessingResult: passed down by reference in the program, handed through here. */
  datatype Dpr = Dpr(closeConn: bool, reqState: AwaitState, reqFd: int, respState: AwaitState, respFd: int)

  const DPR_INIT := Dpr(false, Ready, -1, Ready, -1)

  class DataReadySelector {
    var readFds: set<int>
    var writeFds: set<int>

    constructor ()
      ensures readFds == {} && writeFds == {}
    {
      readFds, writeFds := {}, {};
    }

    method SetReadFd(fd: int)
      modifies this
      ensures readFds == old(readFds) + {fd} && writeFds == old(writeFds)
    {
      readFds := readFds + {fd};
    }

    method SetWriteFd(fd: int)
      modifies this
      ensures readFds == old(readFds) && writeFds == old(writeFds) + {fd}
    {
      writeFds := writeFds + {fd};
    }

    /**
     drs_select: sleeps until a selected descriptor is ready. With none selected it would never wake up; with one that
     is not open it fails, and the program ends.
     */
    method Select(openFds: set<int>) returns (fails: bool)
      requires readFds + writeFds != {}
      modifies this
      ensures fails <==> !(old(readFds + writeFds) <= openFds)
      ensures readFds == {} && writeFds == {}
    {
      fails := !(readFds + writeFds <= openFds);
      readFds, writeFds := {}, {};
    }
  }
}
