/** The transport object: matcher, pending line and receive ring updated per byte, refining `ModemFilter`. */
module Sim800TcpTransport {
  import opened Bytes
  import opened Rings
  import opened ModemFilter

  class Transport {
    const rx: RxRing
    const rawLineBuf: array<byte>
    var rawLineLen: nat
    var promptLeak: nat
    var connected: bool
    var ip: Ip
    var dataMode: bool

    ghost predicate Valid()
      reads this, rx
    {
      && rx.Valid() && rawLineBuf.Length == RAW_LINE_BUF && rawLineLen < RAW_LINE_BUF
      && rawLineBuf != rx.data && promptLeak <= 2
      && (connected && promptLeak != 0 ==> rawLineLen == 0)
    }

    ghost function Raw(): ModemFilter.Raw
      requires Valid()
      reads this, rx, rawLineBuf
    {
      ModemFilter.Raw(rawLineBuf[..rawLineLen], promptLeak)
    }

    constructor ()
      ensures Valid() && !connected && ip.state == Idle && Raw() == ModemFilter.Raw([], 0) && rx.Contents() == []
      ensures fresh(rx) && fresh(rawLineBuf) && fresh(rx.data)
    {
      rx := new RxRing();
      rawLineBuf := new byte[RAW_LINE_BUF];
      rawLineLen, promptLeak, connected, ip, dataMode := 0, 0, false, Ip(Idle, 0, 0), false;
    }

    /** One received byte: the ring gets what the matcher and the filter pass on. */
    method OnByte(c: byte)
      requires Valid()
      modifies this, rx, rx.data, rawLineBuf
      ensures Valid() && connected == old(connected)
      ensures var step := ByteStep(old(ip), old(Raw()), connected, c);
              ip == step.0 && Raw() == step.1 && rx.Contents() == LastN(old(rx.Contents()) + step.2, RX_SIZE)
    {
      hide RawStep, IpStep;
      var direct := ip.state == ReadData;
      ghost var s, raw := rx.Contents(), Raw();
      ip := IpStep(ip, c);
      if direct {
        rx.Push(c);
      }
      dataMode := ip.state == ReadData;
      assert Raw() == raw;
      if ip.state == ReadData {
        return;
      }
      ghost var f := RawStep(raw, connected, c);
      ghost var pre := if direct then [c] else [];
      assert s + pre + f.1 == s + (pre + f.1);
      LastNConcat(s + pre, f.1, RX_SIZE);
      assert rx.Contents() == LastN(s + pre, RX_SIZE) by {
        if !direct {
          assert s + [] == s;
        }
      }
      RawFilter(c);
    }

    /** The raw part of the hook. */
    method RawFilter(c: byte)
      requires Valid()
      modifies this`rawLineLen, this`promptLeak, rx, rx.data, rawLineBuf
      ensures Valid()
      ensures var f := RawStep(old(Raw()), connected, c);
              Raw() == f.0 && rx.Contents() == LastN(old(rx.Contents()) + f.1, RX_SIZE)
    {
      assert rx.Contents() + [] == rx.Contents();
      if connected && promptLeak != 0 {
        if promptLeak == 1 && c == CR {
          promptLeak := 2;
          return;
        }
        if c == LF {
          promptLeak := 0;
          return;
        }
        promptLeak := 0;
      }
      if !Printable(c) {
        promptLeak := 0;
        Flush(c);
        return;
      }
      if connected && rawLineLen == 0 {
        assert rawLineBuf[..0] == [];
        if c == PROMPT {
          promptLeak := 1;
          return;
        }
        if c == CR || c == LF {
          return;
        }
        if !MaybeModemText(c) {
          rx.Push(c);
          return;
        }
      }
      if rawLineLen + 1 >= RAW_LINE_BUF {
        Flush(c);
        return;
      }
      EndLine(c);
    }

    /** Passes the pending line on as payload, and the byte with it when connected. */
    method Flush(c: byte)
      requires Valid()
      modifies this`rawLineLen, rx, rx.data
      ensures Valid() && rawLineLen == 0
      ensures rx.Contents()
           == LastN(old(rx.Contents()) + (old(rawLineBuf[..rawLineLen]) + (if connected then [c] else [])), RX_SIZE)
    {
      ghost var s, line := rx.Contents(), rawLineBuf[..rawLineLen];
      rx.PushAll(rawLineBuf[..rawLineLen]);
      rawLineLen := 0;
      if connected {
        rx.Push(c);
        LastNStep(s + line, c, RX_SIZE);
        assert s + line + [c] == s + (line + [c]);
      } else {
        assert line + [] == line;
      }
    }

    /** Appends to the pending line; a complete line is dropped or passed on. */
    method EndLine(c: byte)
      requires Valid() && rawLineLen + 1 < RAW_LINE_BUF && (connected ==> promptLeak == 0)
      modifies this`rawLineLen, rx, rx.data, rawLineBuf
      ensures Valid()
      ensures var line := old(rawLineBuf[..rawLineLen]) + [c];
              && rawLineBuf[..rawLineLen] == (if c == LF then [] else line)
              && rx.Contents() == LastN(old(rx.Contents()) + (if c == LF && connected && !IsControl(line) then line else []),
                                        RX_SIZE)
    {
      assert rx.Contents() + [] == rx.Contents();
      ghost var line := rawLineBuf[..rawLineLen] + [c];
      rawLineBuf[rawLineLen] := c;
      rawLineLen := rawLineLen + 1;
      assert rawLineBuf[..rawLineLen] == line;
      if c != LF {
        return;
      }
      var control := IsControlLine(rawLineBuf[..rawLineLen]);
      if !control && connected {
        rx.PushAll(rawLineBuf[..rawLineLen]);
      }
      rawLineLen := 0;
    }
  }

  /** Keeping the newest of a stream now and later, or all at once, is the same. */
  lemma LastNConcat(s: seq<byte>, t: seq<byte>, n: nat)
    ensures LastN(LastN(s, n) + t, n) == LastN(s + t, n)
  {
    if |s| > n {
      var k := |s| - n;
      var tail := s[k..] + t;
      assert (s + t)[k..] == tail;
      assert |tail| == n + |t| && |s + t| == k + |tail|;
      if |t| > 0 {
        SliceOfSlice(s + t, k, |t|);
        assert LastN(LastN(s, n) + t, n) == tail[|t|..];
        assert LastN(s + t, n) == (s + t)[k + |t|..];
      }
    }
  }

  lemma SliceOfSlice(s: seq<byte>, i: nat, j: nat)
    requires i + j <= |s|
    ensures s[i..][j..] == s[i + j..]
  {
  }
}
