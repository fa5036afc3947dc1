/** A file sent over a connection as the code runs it. */
module FileTransfer {
  import opened Bytes
  import opened SequenceSpace
  import opened Sender
  import SegmentList
  import opened SlidingWindow
  import opened SlidingWindowSafety
  import opened WrappingRuns
  import opened SlidingWindowProgress
  import opened Application

  /** The messages that the application hands to the service point in a run. */
  function Messages(actions: seq<Action>): seq<seq<byte>> {
    if actions == [] then []
    else
      var a := actions[|actions| - 1];
      Messages(actions[..|actions| - 1]) + (if a.Accept? then [a.message] else [])
  }

  /** What a run accepts are the fronts of these messages, as for an `Outbox` with the same calls. */
  lemma {:induction false} AcceptedAreFronts(mode: Arithmetic, s: System, actions: seq<Action>, last: System)
    requires Run(mode, s, actions, last)
    ensures last.accepted == s.accepted + Fronts(Messages(actions))
    decreases |actions|
  {
    if actions != [] {
      var n := |actions| - 1;
      var t := LastStep(mode, s, actions, last);
      AcceptedAreFronts(mode, s, actions[..n], t);
      var a, before := actions[n], Messages(actions[..n]);
      if a.Accept? {
        assert Messages(actions) == before + [a.message] && (before + [a.message])[..|before|] == before;
      } else {
        assert Messages(actions) == before;
      }
    }
  }

  lemma {:induction false} LastStep(mode: Arithmetic, s: System, actions: seq<Action>, last: System) returns (t: System)
    requires Run(mode, s, actions, last) && actions != []
    ensures Run(mode, s, actions[..|actions| - 1], t)
    ensures Enabled(mode, t, actions[|actions| - 1]) && last == Apply(mode, t, actions[|actions| - 1])
    decreases |actions|
  {
    var n := |actions| - 1;
    if n == 0 {
      t := s;
    } else {
      t := LastStep(mode, Apply(mode, s, actions[0]), actions[1..], last);
      assert actions[1..][..n - 1] == actions[..n][1..];
      assert actions[1..][n - 1] == actions[n];
    }
  }

  /** Whatever the network does, the bytes that the downloading side has read of a connection over
      which a file is being uploaded are the first bytes of the upload. */
  lemma {:induction false} ReadsTheUpload(s: System, actions: seq<Action>, last: System, file: Option)
    requires Init(s) && Run(Wrapping, s, actions, last) && Fronts(Messages(actions)) <= Uploaded(file)
    requires s.cut[0].pos + |Fronts(Messages(actions))| < MAX_SEQ_NUM
    ensures last.delivered <= Uploaded(file)
  {
    hide Uploaded, Fronts, Messages, Run;
    AcceptedAreFronts(Wrapping, s, actions, last);
    CodeIsSafe(s, actions, last);
    assert last.delivered <= last.delivered + SegmentList.Payload(last.rcv.buffers.ready);
  }

  /** And once all of it has been handed over it can still be read, unless the acknowledgment of the
      handshake is lost and the upload does not fit one window: exactly then does the connection reach
      a state in which the download has its whole stream. */
  lemma {:induction false} FileArrivesExactly(s: System, actions: seq<Action>, last: System, file: Option)
    requires Init(s) && Run(Wrapping, s, actions, last) && Fronts(Messages(actions)) == Uploaded(file)
    requires s.cut[0].pos + |Uploaded(file)| < MAX_SEQ_NUM
    ensures last.cut != []
    ensures (exists t :: Reaches(Wrapping, last, t) && There(t.delivered, 0, Uploaded(file)))
            <==> HandshakeAcked(last) || |Uploaded(file)| <= last.rcv.window
  {
    hide Uploaded, Fronts, Messages, Run;
    AcceptedAreFronts(Wrapping, s, actions, last);
    InitHolds(s);
    RunGrows(Wrapping, s, actions, last);
    RunKeepsIn(Wrapping, s, actions, last);
    CanDeliverExactly(Wrapping, last);
    if CanDeliver(Wrapping, last) {
      var t :| Reaches(Wrapping, last, t) && last.accepted <= t.delivered;
      assert There(t.delivered, 0, Uploaded(file));
    }
    if exists t :: Reaches(Wrapping, last, t) && There(t.delivered, 0, Uploaded(file)) {
      var t :| Reaches(Wrapping, last, t) && There(t.delivered, 0, Uploaded(file));
      assert last.accepted <= t.delivered;
    }
  }

  /** In such a state the download, in whatever portions it reads, stores what `Stored` says: the file
      itself if it has 1 to 2^31 - 1 bytes. */
  method DownloadDelivered(ghost s: System, ghost actions: seq<Action>, last: System, ghost file: Option,
                           schedule: seq<nat>)
    returns (result: Transfer)
    requires Init(s) && Run(Wrapping, s, actions, last) && Fronts(Messages(actions)) == Uploaded(file)
    requires s.cut[0].pos + |Uploaded(file)| < MAX_SEQ_NUM && |last.delivered| >= |Uploaded(file)|
    ensures result.Waiting? || result == Stored(file)
    ensures |last.delivered| <= Busy(schedule) ==> result == Stored(file)
    ensures |last.delivered| <= Busy(schedule) && file.Some? && 0 < |file.data| < INT_LIMIT ==>
              result == File(file.data)
  {
    ReadsTheUpload(s, actions, last, file);
    assert last.delivered == Uploaded(file);
    StoredIsNoWait(file);
    var inbox := new Inbox(last.delivered, schedule);
    result := inbox.Download(file);
  }

  lemma {:induction false} StoredIsNoWait(file: Option)
    ensures !Stored(file).Waiting?
    ensures file.Some? && 0 < |file.data| < INT_LIMIT ==> Stored(file) == File(file.data)
  {
    if file.Some? {
      TransferExactly(file.data);
    }
  }
}
