/** The capture splitter: cuts a raw byte stream recorded from the printer
    connection into messages. A message is closed at an LF that follows a
    CR when the next byte is a start byte (36 or 42) or there is no next
    byte. An LF after a CR that is followed by any other byte is dropped and
    the message goes on. Bytes after the last cut are discarded. */
module Replay {

  import opened Wire

  const CR: Byte := 13
  const LF: Byte := 10

  predicate IsStartByte(b: Byte) {
    b == 36 || b == 42
  }

  /** The splitting loop from index `i` on, with the message being built in
      `temp` and the messages closed so far in `messages`; the result pairs
      the closed messages with the unfinished tail. */
  function SplitFrom(data: seq<Byte>, i: nat, temp: seq<Byte>, messages: seq<seq<Byte>>)
    : (r: (seq<seq<Byte>>, seq<Byte>))
    requires i <= |data|
    ensures |messages| <= |r.0| && r.0[..|messages|] == messages
    decreases |data| - i
  {
    if i == |data| then (messages, temp)
    else if |temp| > 0 && temp[|temp| - 1] == CR && data[i] == LF then
      if |data| > i + 1 then
        if IsStartByte(data[i + 1]) then SplitFrom(data, i + 1, [], messages + [temp + [LF]])
        else SplitFrom(data, i + 1, temp, messages)
      else SplitFrom(data, i + 1, [], messages + [temp + [LF]])
    else SplitFrom(data, i + 1, temp + [data[i]], messages)
  }

  /** The messages of a capture: each ends with CR LF, and each after the
      first begins with a start byte. */
  function Messages(data: seq<Byte>): (r: seq<seq<Byte>>)
    ensures forall j :: 0 <= j < |r| ==> EndsWithCRLF(r[j])
    ensures forall j :: 1 <= j < |r| ==> |r[j]| > 0 && IsStartByte(r[j][0])
    ensures forall j :: 0 <= j < |r| ==> InnerClean(r[j])
    ensures Concat(r) <= Keep(data, 0, false)
  {
    SplitMessagesKept(data);
    SplitFromEndsWithCRLF(data, 0, [], []);
    SplitFromCutsBeforeStart(data, 0, [], []);
    SplitFromNoInnerCRLF(data, 0, [], []);
    SplitFrom(data, 0, [], []).0
  }

  lemma SplitMessagesKept(data: seq<Byte>)
    ensures Concat(SplitFrom(data, 0, [], []).0) <= Keep(data, 0, false)
  {
    var r := SplitFrom(data, 0, [], []);
    SplitFromKeep(data, 0, [], []);
    assert Concat(r.0) == (Concat(r.0) + r.1)[..|Concat(r.0)|];
  }

  /** The unfinished tail the splitter discards: after the messages, it is
      what is left of the capture once some LFs are dropped. */
  function Discarded(data: seq<Byte>): (r: seq<Byte>)
    ensures DropsLFs(Concat(Messages(data)) + r, data)
    ensures NoCRLF(r)
    ensures |Messages(data)| > 0 && |r| > 0 ==> IsStartByte(r[0])
    ensures Concat(Messages(data)) + r == Keep(data, 0, false)
  {
    SplitFromNoInnerCRLF(data, 0, [], []);
    SplitFromDropsLFs(data, 0, [], []);
    SplitFromKeep(data, 0, [], []);
    assert Concat([]) + [] + data[0..] == data;
    SplitFrom(data, 0, [], []).1
  }

  /** The bytes of a capture that survive splitting, read from index `i` on;
      `afterCR` says whether the byte kept just before is a CR. An LF right
      after a kept CR is dropped exactly when another byte follows it and
      that byte is not a start byte; every other byte is kept. */
  function Keep(data: seq<Byte>, i: nat, afterCR: bool): (r: seq<Byte>)
    requires i <= |data|
    ensures |r| <= |data| - i
    decreases |data| - i
  {
    if i == |data| then []
    else if afterCR && data[i] == LF && i + 1 < |data| && !IsStartByte(data[i + 1]) then
      Keep(data, i + 1, afterCR)
    else [data[i]] + Keep(data, i + 1, data[i] == CR)
  }

  /** `x` is `y` with some of its LF bytes deleted where they stand and
      nothing else changed. */
  predicate DropsLFs(x: seq<Byte>, y: seq<Byte>)
    decreases |y|
  {
    if |y| == 0 then |x| == 0
    else (y[0] == LF && DropsLFs(x, y[1..])) || (|x| > 0 && x[0] == y[0] && DropsLFs(x[1..], y[1..]))
  }

  lemma {:induction false} DropsNone(x: seq<Byte>)
    ensures DropsLFs(x, x)
    decreases |x|
  {
    if |x| > 0 {
      DropsNone(x[1..]);
    }
  }

  /** One more LF anywhere in the original can be dropped as well. */
  lemma {:induction false} DropOneMore(x: seq<Byte>, p: seq<Byte>, s: seq<Byte>)
    requires DropsLFs(x, p + s)
    ensures DropsLFs(x, p + [LF] + s)
    decreases |p|
  {
    if |p| == 0 {
      assert p + s == s && (p + [LF] + s)[1..] == s;
    } else {
      var y := p + [LF] + s;
      assert (p + s)[0] == p[0] == y[0];
      assert (p + s)[1..] == p[1..] + s && y[1..] == p[1..] + [LF] + s;
      if p[0] == LF && DropsLFs(x, p[1..] + s) {
        DropOneMore(x, p[1..], s);
      } else {
        DropOneMore(x[1..], p[1..], s);
      }
    }
  }

  /** Dropping LFs keeps every other byte in order and never lengthens. */
  lemma {:induction false} DropsLFsKeeps(x: seq<Byte>, y: seq<Byte>)
    requires DropsLFs(x, y)
    ensures RemoveLF(x) == RemoveLF(y) && |x| <= |y|
    decreases |y|
  {
    if |y| > 0 {
      if y[0] == LF && DropsLFs(x, y[1..]) {
        DropsLFsKeeps(x, y[1..]);
      } else {
        DropsLFsKeeps(x[1..], y[1..]);
      }
    }
  }

  function RemoveLF(s: seq<Byte>): (r: seq<Byte>)
    ensures forall k :: 0 <= k < |r| ==> r[k] != LF
  {
    if |s| == 0 then [] else (if s[0] == LF then [] else [s[0]]) + RemoveLF(s[1..])
  }

  predicate EndsWithCRLF(m: seq<Byte>) {
    |m| >= 2 && m[|m| - 2] == CR && m[|m| - 1] == LF
  }

  // ---------------------------------------------------------------------------
  // Every message ends in CR LF
  // ---------------------------------------------------------------------------

  predicate AllEndWithCRLF(messages: seq<seq<Byte>>) {
    forall j :: 0 <= j < |messages| ==> EndsWithCRLF(messages[j])
  }

  lemma {:induction false} SplitFromEndsWithCRLF(data: seq<Byte>, i: nat, temp: seq<Byte>, messages: seq<seq<Byte>>)
    requires i <= |data|
    requires AllEndWithCRLF(messages)
    ensures AllEndWithCRLF(SplitFrom(data, i, temp, messages).0)
    decreases |data| - i
  {
    if i < |data| {
      if |temp| > 0 && temp[|temp| - 1] == CR && data[i] == LF {
        var closed := messages + [temp + [LF]];
        assert AllEndWithCRLF(closed);
        SplitFromEndsWithCRLF(data, i + 1, temp, messages);
        SplitFromEndsWithCRLF(data, i + 1, [], closed);
      } else {
        SplitFromEndsWithCRLF(data, i + 1, temp + [data[i]], messages);
      }
    }
  }

  /** Every message of a capture ends with CR LF. */
  lemma MessagesEndWithCRLF(data: seq<Byte>)
    ensures forall j :: 0 <= j < |Messages(data)| ==> EndsWithCRLF(Messages(data)[j])
  {
    SplitFromEndsWithCRLF(data, 0, [], []);
  }

  // ---------------------------------------------------------------------------
  // An LF after a CR survives only where the loop cuts
  // ---------------------------------------------------------------------------

  /** No CR is directly followed by an LF. */
  predicate NoCRLF(s: seq<Byte>) {
    forall j :: 1 <= j < |s| ==> !(s[j - 1] == CR && s[j] == LF)
  }

  /** A message holding no CR LF before its last byte. */
  predicate InnerClean(m: seq<Byte>) {
    |m| > 0 && NoCRLF(m[..|m| - 1])
  }

  predicate AllInnerClean(messages: seq<seq<Byte>>) {
    forall j :: 0 <= j < |messages| ==> InnerClean(messages[j])
  }

  lemma {:induction false} SplitFromNoInnerCRLF(data: seq<Byte>, i: nat, temp: seq<Byte>, messages: seq<seq<Byte>>)
    requires i <= |data|
    requires AllInnerClean(messages) && NoCRLF(temp)
    requires |messages| > 0 && |temp| > 0 ==> IsStartByte(temp[0])
    requires |messages| > 0 && |temp| == 0 && i < |data| ==> IsStartByte(data[i])
    ensures var r := SplitFrom(data, i, temp, messages);
      && AllInnerClean(r.0)
      && NoCRLF(r.1)
      && (|r.0| > 0 && |r.1| > 0 ==> IsStartByte(r.1[0]))
    decreases |data| - i
  {
    if i < |data| {
      if |temp| > 0 && temp[|temp| - 1] == CR && data[i] == LF {
        var closed := messages + [temp + [LF]];
        assert (temp + [LF])[..|temp + [LF]| - 1] == temp;
        assert AllInnerClean(closed);
        if |data| > i + 1 {
          if IsStartByte(data[i + 1]) {
            SplitFromNoInnerCRLF(data, i + 1, [], closed);
          } else {
            SplitFromNoInnerCRLF(data, i + 1, temp, messages);
          }
        } else {
          SplitFromNoInnerCRLF(data, i + 1, [], closed);
        }
      } else {
        var next := temp + [data[i]];
        assert NoCRLF(next) by {
          forall j | 1 <= j < |next|
            ensures !(next[j - 1] == CR && next[j] == LF)
          {
            if j < |temp| {
              assert next[j - 1] == temp[j - 1] && next[j] == temp[j];
            }
          }
        }
        SplitFromNoInnerCRLF(data, i + 1, next, messages);
      }
    }
  }

  /** The loop's central quirk, for every capture: no message holds a CR LF
      before its last byte and the discarded tail holds none, so an LF after
      a CR survives only where the loop cuts; and once a message is closed,
      the tail is empty or begins with a start byte. */
  lemma LFAfterCRKeptOnlyAtCut(data: seq<Byte>)
    ensures forall j :: 0 <= j < |Messages(data)| ==>
      NoCRLF(Messages(data)[j][..|Messages(data)[j]| - 1])
    ensures NoCRLF(Discarded(data))
    ensures |Messages(data)| > 0 ==> Discarded(data) == [] || IsStartByte(Discarded(data)[0])
  {
    SplitFromNoInnerCRLF(data, 0, [], []);
  }

  // ---------------------------------------------------------------------------
  // Only LFs are dropped, and order is kept
  // ---------------------------------------------------------------------------

  lemma {:induction false} RemoveLFAppend(a: seq<Byte>, b: seq<Byte>)
    ensures RemoveLF(a + b) == RemoveLF(a) + RemoveLF(b)
    decreases |a|
  {
    if |a| == 0 {
      assert a + b == b;
    } else {
      assert (a + b)[0] == a[0] && (a + b)[1..] == a[1..] + b;
      RemoveLFAppend(a[1..], b);
    }
  }

  lemma {:induction false} SplitFromKeepsBytes(data: seq<Byte>, i: nat, temp: seq<Byte>, messages: seq<seq<Byte>>)
    requires i <= |data|
    ensures var r := SplitFrom(data, i, temp, messages);
      RemoveLF(Concat(r.0) + r.1) == RemoveLF(Concat(messages) + temp + data[i..])
    decreases |data| - i
  {
    if i < |data| {
      var x := data[i];
      assert data[i..] == [x] + data[i + 1..];
      var before := Concat(messages) + temp;
      if |temp| > 0 && temp[|temp| - 1] == CR && x == LF {
        if |data| > i + 1 && !IsStartByte(data[i + 1]) {
          SplitFromKeepsBytes(data, i + 1, temp, messages);
          RemoveLFAppend(before, [x] + data[i + 1..]);
          RemoveLFAppend([x], data[i + 1..]);
          RemoveLFAppend(before, data[i + 1..]);
          assert before + data[i..] == Concat(messages) + temp + data[i..];
        } else {
          var closed := messages + [temp + [LF]];
          SplitFromKeepsBytes(data, i + 1, [], closed);
          ConcatAppend(messages, temp + [LF]);
          assert Concat(closed) + [] + data[i + 1..] == Concat(messages) + temp + data[i..];
        }
      } else {
        SplitFromKeepsBytes(data, i + 1, temp + [x], messages);
        assert Concat(messages) + (temp + [x]) + data[i + 1..] == Concat(messages) + temp + data[i..];
      }
    } else {
      assert Concat(messages) + temp + data[i..] == Concat(messages) + temp;
    }
  }

  lemma {:induction false} SplitFromDropsLFs(data: seq<Byte>, i: nat, temp: seq<Byte>, messages: seq<seq<Byte>>)
    requires i <= |data|
    ensures var r := SplitFrom(data, i, temp, messages);
      DropsLFs(Concat(r.0) + r.1, Concat(messages) + temp + data[i..])
    decreases |data| - i
  {
    if i < |data| {
      var x := data[i];
      assert data[i..] == [x] + data[i + 1..];
      var before := Concat(messages) + temp;
      if |temp| > 0 && temp[|temp| - 1] == CR && x == LF {
        if |data| > i + 1 && !IsStartByte(data[i + 1]) {
          SplitFromDropsLFs(data, i + 1, temp, messages);
          var r := SplitFrom(data, i + 1, temp, messages);
          DropOneMore(Concat(r.0) + r.1, before, data[i + 1..]);
          assert before + [LF] + data[i + 1..] == Concat(messages) + temp + data[i..];
        } else {
          var closed := messages + [temp + [LF]];
          SplitFromDropsLFs(data, i + 1, [], closed);
          ConcatAppend(messages, temp + [LF]);
          assert Concat(closed) + [] + data[i + 1..] == Concat(messages) + temp + data[i..];
        }
      } else {
        SplitFromDropsLFs(data, i + 1, temp + [x], messages);
        assert Concat(messages) + (temp + [x]) + data[i + 1..] == Concat(messages) + temp + data[i..];
      }
    } else {
      assert Concat(messages) + temp + data[i..] == Concat(messages) + temp;
      DropsNone(Concat(messages) + temp);
    }
  }

  /** The kept byte just before is a CR. */
  predicate EndsWithCR(t: seq<Byte>) {
    |t| > 0 && t[|t| - 1] == CR
  }

  lemma {:induction false} SplitFromKeep(data: seq<Byte>, i: nat, temp: seq<Byte>, messages: seq<seq<Byte>>)
    requires i <= |data|
    ensures var r := SplitFrom(data, i, temp, messages);
      Concat(r.0) + r.1 == Concat(messages) + temp + Keep(data, i, EndsWithCR(temp))
    decreases |data| - i
  {
    if i < |data| {
      var x := data[i];
      if EndsWithCR(temp) && x == LF {
        if |data| > i + 1 && !IsStartByte(data[i + 1]) {
          assert SplitFrom(data, i, temp, messages) == SplitFrom(data, i + 1, temp, messages);
          assert Keep(data, i, true) == Keep(data, i + 1, true);
          SplitFromKeep(data, i + 1, temp, messages);
        } else {
          var closed := messages + [temp + [LF]];
          assert SplitFrom(data, i, temp, messages) == SplitFrom(data, i + 1, [], closed);
          SplitFromKeep(data, i + 1, [], closed);
          ConcatAppend(messages, temp + [LF]);
          KeepCut(data, i, Concat(messages), temp);
        }
      } else {
        var next := temp + [x];
        assert SplitFrom(data, i, temp, messages) == SplitFrom(data, i + 1, next, messages);
        SplitFromKeep(data, i + 1, next, messages);
        KeepStep(data, i, Concat(messages), temp, EndsWithCR(temp));
      }
    }
  }

  /** A kept LF that closes a message. */
  lemma KeepCut(data: seq<Byte>, i: nat, before: seq<Byte>, temp: seq<Byte>)
    requires i < |data| && data[i] == LF
    requires i + 1 == |data| || IsStartByte(data[i + 1])
    ensures before + (temp + [LF]) + [] + Keep(data, i + 1, false) == before + temp + Keep(data, i, true)
  {
    assert Keep(data, i, true) == [LF] + Keep(data, i + 1, false);
  }

  /** A byte appended to the message being built. */
  lemma KeepStep(data: seq<Byte>, i: nat, before: seq<Byte>, temp: seq<Byte>, cr: bool)
    requires i < |data|
    requires !(cr && data[i] == LF)
    ensures EndsWithCR(temp + [data[i]]) == (data[i] == CR)
    ensures before + (temp + [data[i]]) + Keep(data, i + 1, data[i] == CR) == before + temp + Keep(data, i, cr)
  {
    assert (temp + [data[i]])[|temp|] == data[i];
    assert Keep(data, i, cr) == [data[i]] + Keep(data, i + 1, data[i] == CR);
  }

  /** The messages and the discarded tail, in order, are exactly the bytes
      the splitter keeps: the capture less each LF that follows a kept CR
      and precedes a byte other than 36 or 42. */
  lemma MessagesAreKept(data: seq<Byte>)
    ensures Concat(Messages(data)) + Discarded(data) == Keep(data, 0, false)
  {
    SplitFromKeep(data, 0, [], []);
  }

  /** The messages and the discarded tail, in order, are the capture with
      some LF bytes deleted where they stood and nothing else changed; so
      every other byte survives in order and nothing is added. */
  lemma MessagesKeepBytes(data: seq<Byte>)
    ensures DropsLFs(Concat(Messages(data)) + Discarded(data), data)
    ensures RemoveLF(Concat(Messages(data)) + Discarded(data)) == RemoveLF(data)
    ensures |Concat(Messages(data)) + Discarded(data)| <= |data|
  {
    SplitFromDropsLFs(data, 0, [], []);
    assert Concat([]) + [] + data[0..] == data;
    DropsLFsKeeps(Concat(Messages(data)) + Discarded(data), data);
  }

  lemma {:induction false} SplitFromShrinks(data: seq<Byte>, i: nat, temp: seq<Byte>, messages: seq<seq<Byte>>)
    requires i <= |data|
    ensures var r := SplitFrom(data, i, temp, messages);
      |Concat(r.0) + r.1| <= |Concat(messages) + temp| + |data| - i
    decreases |data| - i
  {
    if i < |data| {
      if |temp| > 0 && temp[|temp| - 1] == CR && data[i] == LF {
        var closed := messages + [temp + [LF]];
        ConcatAppend(messages, temp + [LF]);
        SplitFromShrinks(data, i + 1, [], closed);
        SplitFromShrinks(data, i + 1, temp, messages);
      } else {
        SplitFromShrinks(data, i + 1, temp + [data[i]], messages);
      }
    }
  }

  // ---------------------------------------------------------------------------
  // Cuts happen only before a start byte or at the end
  // ---------------------------------------------------------------------------

  predicate LaterBeginWithStartByte(messages: seq<seq<Byte>>) {
    forall j :: 1 <= j < |messages| ==> |messages[j]| > 0 && IsStartByte(messages[j][0])
  }

  lemma {:induction false} SplitFromCutsBeforeStart(data: seq<Byte>, i: nat, temp: seq<Byte>, messages: seq<seq<Byte>>)
    requires i <= |data|
    requires LaterBeginWithStartByte(messages)
    requires |messages| > 0 && |temp| > 0 ==> IsStartByte(temp[0])
    requires |messages| > 0 && |temp| == 0 && i < |data| ==> IsStartByte(data[i])
    ensures LaterBeginWithStartByte(SplitFrom(data, i, temp, messages).0)
    decreases |data| - i
  {
    if i < |data| {
      if |temp| > 0 && temp[|temp| - 1] == CR && data[i] == LF {
        var closed := messages + [temp + [LF]];
        if |data| > i + 1 {
          if IsStartByte(data[i + 1]) {
            assert LaterBeginWithStartByte(closed);
            SplitFromCutsBeforeStart(data, i + 1, [], closed);
          } else {
            SplitFromCutsBeforeStart(data, i + 1, temp, messages);
          }
        } else {
          assert LaterBeginWithStartByte(closed);
          SplitFromCutsBeforeStart(data, i + 1, [], closed);
        }
      } else {
        SplitFromCutsBeforeStart(data, i + 1, temp + [data[i]], messages);
      }
    }
  }

  /** Every message after the first begins with a start byte: a message is
      only ever closed right before a start byte or at the end of the
      capture. */
  lemma LaterMessagesBeginWithStartByte(data: seq<Byte>)
    ensures forall j :: 1 <= j < |Messages(data)| ==>
      |Messages(data)[j]| > 0 && IsStartByte(Messages(data)[j][0])
  {
    SplitFromCutsBeforeStart(data, 0, [], []);
  }

  // ---------------------------------------------------------------------------
  // Splitting a stream of well-formed messages gives them back
  // ---------------------------------------------------------------------------

  /** A message the splitter recovers intact: it begins with a start byte,
      ends with CR LF and has no CR LF inside. */
  predicate CleanFrame(f: seq<Byte>) {
    && EndsWithCRLF(f)
    && IsStartByte(f[0])
    && forall j :: 1 <= j < |f| - 1 ==> !(f[j - 1] == CR && f[j] == LF)
  }

  lemma {:induction false} FrameStep(data: seq<Byte>, i: nat, f: seq<Byte>, m: nat, messages: seq<seq<Byte>>)
    requires CleanFrame(f) && 1 <= m < |f|
    requires i + (|f| - m) <= |data| && data[i..i + (|f| - m)] == f[m..]
    requires i + (|f| - m) == |data| || IsStartByte(data[i + (|f| - m)])
    ensures SplitFrom(data, i, f[..m], messages) == SplitFrom(data, i + (|f| - m), [], messages + [f])
    decreases |f| - m
  {
    assert data[i] == f[m];
    if m == |f| - 1 {
      assert f[..m] + [LF] == f;
    } else {
      assert !(f[m - 1] == CR && f[m] == LF);
      assert f[..m] + [f[m]] == f[..m + 1];
      assert data[i + 1..i + 1 + (|f| - (m + 1))] == f[m + 1..];
      FrameStep(data, i + 1, f, m + 1, messages);
    }
  }

  lemma {:induction false} FramesStep(data: seq<Byte>, i: nat, frames: seq<seq<Byte>>, messages: seq<seq<Byte>>)
    requires forall j :: 0 <= j < |frames| ==> CleanFrame(frames[j])
    requires i <= |data| && data[i..] == Concat(frames)
    ensures SplitFrom(data, i, [], messages) == (messages + frames, [])
    decreases |frames|
  {
    if |frames| == 0 {
      assert |data[i..]| == 0;
      assert messages + frames == messages;
    } else {
      var f := frames[0];
      assert data[i..i + |f|] == f;
      assert data[i] == f[0];
      assert [] + [data[i]] == f[..1];
      assert data[i + 1..i + 1 + (|f| - 1)] == f[1..];
      assert data[i + |f|..] == Concat(frames[1..]);
      if i + |f| < |data| {
        assert data[i + |f|] == frames[1][0];
      }
      FrameStep(data, i + 1, f, 1, messages);
      FramesStep(data, i + |f|, frames[1..], messages + [f]);
      assert messages + [f] + frames[1..] == messages + frames;
    }
  }

  /** Splitting the concatenation of clean frames gives back exactly those
      frames, with nothing discarded. */
  lemma SplitConcatRoundTrip(frames: seq<seq<Byte>>)
    requires forall j :: 0 <= j < |frames| ==> CleanFrame(frames[j])
    ensures Messages(Concat(frames)) == frames
    ensures Discarded(Concat(frames)) == []
  {
    var data := Concat(frames);
    assert data[0..] == data;
    FramesStep(data, 0, frames, []);
  }

  /** A CR LF followed by an ordinary byte loses its LF and does not cut;
      an unterminated tail is discarded. */
  lemma SplitQuirksExample()
    ensures Messages([36, 13, 10, 5, 13, 10]) == [[36, 13, 5, 13, 10]]
    ensures Messages([36, 13, 10, 42, 7]) == [[36, 13, 10]]
    ensures Discarded([36, 13, 10, 42, 7]) == [42, 7]
  {
    var d: seq<Byte> := [36, 13, 10, 5, 13, 10];
    assert [] + [d[0]] == [36] && [36] + [d[1]] == [36, 13] && [36, 13] + [d[3]] == [36, 13, 5];
    assert [36, 13, 5] + [d[4]] == [36, 13, 5, 13] && [36, 13, 5, 13] + [LF] == [36, 13, 5, 13, 10];
    assert SplitFrom(d, 0, [], []) == SplitFrom(d, 1, [36], []);
    assert SplitFrom(d, 1, [36], []) == SplitFrom(d, 2, [36, 13], []);
    assert SplitFrom(d, 2, [36, 13], []) == SplitFrom(d, 3, [36, 13], []);
    assert SplitFrom(d, 3, [36, 13], []) == SplitFrom(d, 4, [36, 13, 5], []);
    assert SplitFrom(d, 4, [36, 13, 5], []) == SplitFrom(d, 5, [36, 13, 5, 13], []);
    var none: seq<seq<Byte>> := [];
    assert none + [[36, 13, 5, 13, 10]] == [[36, 13, 5, 13, 10]];
    assert SplitFrom(d, 5, [36, 13, 5, 13], []) == SplitFrom(d, 6, [], [[36, 13, 5, 13, 10]]);
    var e: seq<Byte> := [36, 13, 10, 42, 7];
    assert [] + [e[0]] == [36] && [36] + [e[1]] == [36, 13] && [36, 13] + [LF] == [36, 13, 10];
    assert [] + [e[3]] == [42] && [42] + [e[4]] == [42, 7];
    assert SplitFrom(e, 0, [], []) == SplitFrom(e, 1, [36], []);
    assert SplitFrom(e, 1, [36], []) == SplitFrom(e, 2, [36, 13], []);
    assert none + [[36, 13, 10]] == [[36, 13, 10]];
    assert SplitFrom(e, 2, [36, 13], []) == SplitFrom(e, 3, [], [[36, 13, 10]]);
    assert SplitFrom(e, 3, [], [[36, 13, 10]]) == SplitFrom(e, 4, [42], [[36, 13, 10]]);
    assert SplitFrom(e, 4, [42], [[36, 13, 10]]) == SplitFrom(e, 5, [42, 7], [[36, 13, 10]]);
  }
}
