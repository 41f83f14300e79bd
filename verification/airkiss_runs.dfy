/** What holds in every state the receiver can reach, whatever frames it hears. */
module AirKissRuns {
  import opened AirKiss

  datatype Group = Group(index: nat, data: seq<Byte>)

  /** The group that a frame completes, if its checksum is right. */
  function Accepted(s: Rx, f: Frame): seq<Group>
    requires Shape(s)
  {
    var r := Slide6(s.record, Code(f.length, s.baseLen));
    if s.phase == PrefixCodeComplete && Passes(s, f) && GroupValid(r, s.totalLen)
    then [Group(r.w1 % 0x80, GroupData(r))] else []
  }

  datatype Heard = Heard(rx: Rx, groups: seq<Group>)

  /** Listening until the message is complete or the frames run out. */
  function Listen(h: Heard, fs: seq<Frame>): Heard
    requires Shape(h.rx)
    decreases |fs|
  {
    if fs == [] || h.rx.phase == Complete then h
    else Listen(Heard(Recv(h.rx, fs[0]), h.groups + Accepted(h.rx, fs[0])), fs[1..])
  }

  function Indices(groups: seq<Group>): set<nat> {
    set g | g in groups :: g.index
  }

  /** The data of the first group with this index. */
  function First(groups: seq<Group>, i: nat): seq<Byte>
    requires i in Indices(groups)
  {
    if groups[0].index == i then groups[0].data else First(groups[1..], i)
  }

  ghost predicate Params(s: Rx) {
    s.needSeq == Need(s.pswdLen) >= 1 && s.target == Below(s.needSeq)
  }

  /** The needed groups among those accepted are stored, each as it first came. */
  ghost predicate Collected(s: Rx, usrData: seq<Byte>, groups: seq<Group>)
    requires Shape(s) && |usrData| == |s.usrData|
  {
    && s.got == Indices(groups) * s.target
    && forall i :: 0 <= i < s.needSeq && i in Indices(groups) ==> usrData[4 * i..4 * i + 4] == First(groups, i)
  }

  /** What every run from airkiss_init keeps. */
  ghost predicate Consistent(h: Heard) {
    var s := h.rx;
    && Shape(s)
    && match s.phase
       case PrefixCodeComplete => Params(s) && Collected(s, s.usrData, h.groups) && s.got != s.target
       case Complete => Params(s) && Collected(s, s.usrData[s.pswdLen := s.randomNum], h.groups) && s.got == s.target
       case _ => h.groups == [] && s.got == {}
  }

  lemma {:induction false} FirstAppend(groups: seq<Group>, g: Group, i: nat)
    ensures Indices(groups + [g]) == Indices(groups) + {g.index}
    ensures i in Indices(groups) ==> First(groups + [g], i) == First(groups, i)
    ensures i !in Indices(groups) && i == g.index ==> First(groups + [g], i) == g.data
  {
    var all := groups + [g];
    forall k | k in Indices(groups) + {g.index} ensures k in Indices(all) {
      if k == g.index {
        assert all[|groups|] == g;
      } else {
        var x :| x in groups && x.index == k;
        assert x in all;
      }
    }
    if groups != [] {
      assert all[1..] == groups[1..] + [g];
      assert groups == [groups[0]] + groups[1..];
      FirstAppend(groups[1..], g, i);
    }
  }

  lemma AddKeeps(s: Rx, groups: seq<Group>, d: seq<Byte>, i: nat)
    requires Shape(s) && Params(s) && |d| == 4 && Collected(s, s.usrData, groups)
    ensures var s' := AddSeqData(s, d, i);
            Params(s') && Collected(s', s'.usrData, groups + [Group(i, d)]) && s.got <= s'.got
  {
    var s', all := AddSeqData(s, d, i), groups + [Group(i, d)];
    FirstAppend(groups, Group(i, d), i);
    forall j | 0 <= j < s.needSeq && j in Indices(all)
      ensures s'.usrData[4 * j..4 * j + 4] == First(all, j)
    {
      FirstAppend(groups, Group(i, d), j);
      if Wanted(s.got, s.needSeq, i) {
        StoreApart(s.usrData, d, i, j);
      }
    }
  }

  lemma FinishKeeps(s: Rx, groups: seq<Group>)
    requires Shape(s) && s.phase == PrefixCodeComplete && Params(s) && Collected(s, s.usrData, groups)
    ensures Consistent(Heard(Finish(s), groups)) && Finish(s).got == s.got
  {
    if s.target == s.got {
      var s' := Finish(s);
      assert s'.usrData[s'.pswdLen := s'.randomNum] == s.usrData;
    }
  }

  lemma GroupKeeps(h: Heard, f: Frame)
    requires Consistent(h) && h.rx.phase == PrefixCodeComplete && Accepted(h.rx, f) != []
    ensures Consistent(Heard(Recv(h.rx, f), h.groups + Accepted(h.rx, f)))
    ensures h.rx.got <= Recv(h.rx, f).got
  {
    var g, s := Accepted(h.rx, f)[0], h.rx.(record := CLEAR);
    AddKeeps(s, h.groups, g.data, g.index);
    FinishKeeps(AddSeqData(s, g.data, g.index), h.groups + [g]);
  }

  lemma StepKeeps(h: Heard, f: Frame)
    requires Consistent(h) && h.rx.phase != Complete
    ensures Consistent(Heard(Recv(h.rx, f), h.groups + Accepted(h.rx, f)))
    ensures h.rx.got <= Recv(h.rx, f).got
  {
    if Accepted(h.rx, f) == [] {
      assert h.groups + Accepted(h.rx, f) == h.groups;
    } else {
      GroupKeeps(h, f);
    }
  }

  /** In every reachable state the received groups are within the target, every one of them is as the
      first valid group with its index, and the message is complete just when no needed one is missing. */
  lemma {:induction false} ListenConsistent(h: Heard, fs: seq<Frame>)
    requires Consistent(h)
    ensures Consistent(Listen(h, fs)) && h.rx.got <= Listen(h, fs).rx.got
    ensures var l := Listen(h, fs);
            l.rx.phase == PrefixCodeComplete || l.rx.phase == Complete ==>
              (l.rx.phase == Complete <==> Below(l.rx.needSeq) <= Indices(l.groups))
    decreases |fs|
  {
    if fs == [] || h.rx.phase == Complete {
    } else {
      StepKeeps(h, fs[0]);
      ListenConsistent(Heard(Recv(h.rx, fs[0]), h.groups + Accepted(h.rx, fs[0])), fs[1..]);
    }
  }

  /** Runs from airkiss_init. */
  lemma ListenFromInit(fs: seq<Frame>)
    ensures Consistent(Listen(Heard(INIT, []), fs))
  {
    ListenConsistent(Heard(INIT, []), fs);
  }

  /** The outcome depends on the first valid group of each index alone: not on the order of the groups,
      nor on repeats, nor on anything heard between them. */
  lemma OrderIrrelevant(a: Heard, b: Heard)
    requires Consistent(a) && Consistent(b) && a.rx.phase == Complete && b.rx.phase == Complete
    requires a.rx.pswdLen == b.rx.pswdLen
    requires forall i :: 0 <= i < a.rx.needSeq && i in Indices(a.groups) && i in Indices(b.groups) ==>
                           First(a.groups, i) == First(b.groups, i)
    ensures var n := a.rx.pswdLen;
            a.rx.usrData[..n] == b.rx.usrData[..n] && a.rx.randomNum == b.rx.randomNum
  {
    var n := a.rx.pswdLen;
    var u, v := a.rx.usrData[n := a.rx.randomNum], b.rx.usrData[n := b.rx.randomNum];
    forall k | 0 <= k <= n ensures u[k] == v[k] {
      SameByte(a, b, u, v, k);
    }
    assert u[n] == a.rx.randomNum && v[n] == b.rx.randomNum;
    assert forall k :: 0 <= k < n ==> a.rx.usrData[k] == u[k] && b.rx.usrData[k] == v[k];
  }

  lemma Roomy(h: Heard)
    requires Consistent(h)
    ensures h.rx.pswdLen < |h.rx.usrData|
  {
  }

  /** Each byte of a complete message is one of the first valid group with its index. */
  lemma FirstThere(h: Heard, u: seq<Byte>, k: nat)
    requires Consistent(h) && h.rx.phase == Complete && k <= h.rx.pswdLen
    requires |h.rx.usrData| > h.rx.pswdLen && u == h.rx.usrData[h.rx.pswdLen := h.rx.randomNum]
    ensures var i := k / 4;
            i in Indices(h.groups) && |First(h.groups, i)| == 4 && k < |u| && u[k] == First(h.groups, i)[k - 4 * i]
  {
    var i := k / 4;
    assert i in h.rx.target;
    assert i in Indices(h.groups);
    assert u[4 * i..4 * i + 4][k - 4 * i] == u[k];
  }

  lemma SameByte(a: Heard, b: Heard, u: seq<Byte>, v: seq<Byte>, k: nat)
    requires Consistent(a) && Consistent(b) && a.rx.phase == Complete && b.rx.phase == Complete
    requires a.rx.pswdLen == b.rx.pswdLen && k <= a.rx.pswdLen
    requires u == a.rx.usrData[a.rx.pswdLen := a.rx.randomNum] && v == b.rx.usrData[b.rx.pswdLen := b.rx.randomNum]
    requires var i := k / 4;
             i in Indices(a.groups) && i in Indices(b.groups) ==> First(a.groups, i) == First(b.groups, i)
    ensures u[k] == v[k]
  {
    hide Consistent, First, Indices;
    var i := k / 4;
    Roomy(a);
    Roomy(b);
    FirstThere(a, u, k);
    FirstThere(b, v, k);
  }

  /** The end of a session leaves its groups behind: the next frame of the sender starts a new session
      with none of them forgotten. */
  lemma NextSessionIsStale(h: Heard, f: Frame, f': Frame)
    requires Consistent(h) && h.rx.phase != Complete && Recv(h.rx, f).phase == Complete
    requires Passes(Recv(h.rx, f), f')
    ensures var s := Recv(Recv(h.rx, f), f');
            s.phase == Idle && s.record == CLEAR && s.got != {}
  {
    StepKeeps(h, f);
    assert 0 in Below(Recv(h.rx, f).needSeq);
  }
}
