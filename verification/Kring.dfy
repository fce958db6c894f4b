/** The kernel log ring (kernel/src/logger/kring.rs): messages with a two-byte length prefix
    in a circular byte buffer, oldest dropped first. */
module Kring {
  import opened Basics
  import opened Utf8

  const CAPACITY: nat := 64 * 1024
  const MAX_MSG_COPY: nat := 1024

  type Message = seq<Byte>

  /** The buffer index of the `i`-th byte after `head`. */
  function Slot(head: nat, i: nat): (k: nat)
    ensures k < CAPACITY
    ensures head < CAPACITY && i <= CAPACITY ==> k == if head + i < CAPACITY then head + i else head + i - CAPACITY
  {
    (head + i) % CAPACITY
  }

  /** Size of a message with its prefix. */
  function Framed(m: Message): nat {
    2 + |m|
  }

  function Size(ms: seq<Message>): nat {
    if ms == [] then 0 else Framed(ms[0]) + Size(ms[1..])
  }

  predicate Fits(m: Message) {
    Framed(m) <= CAPACITY
  }

  predicate AllFit(ms: seq<Message>) {
    forall i | 0 <= i < |ms| :: Fits(ms[i])
  }

  function LowByte(n: nat): Byte { n % 256 }

  function HighByte(n: nat): Byte { (n / 256) % 256 }

  /** `u16::from_le_bytes` */
  function Length(lo: Byte, hi: Byte): nat {
    (lo as int) + 256 * (hi as int)
  }

  /** Little-endian length, then the bytes. */
  function Frame(m: Message): seq<Byte> {
    [LowByte(|m|), HighByte(|m|)] + m
  }

  function Frames(ms: seq<Message>): seq<Byte> {
    if ms == [] then [] else Frame(ms[0]) + Frames(ms[1..])
  }

  lemma {:induction false} FramesLength(ms: seq<Message>)
    ensures |Frames(ms)| == Size(ms)
  {
    if ms != [] { FramesLength(ms[1..]); }
  }

  lemma {:induction false} FramesSnoc(a: seq<Message>, m: Message)
    ensures Frames(a + [m]) == Frames(a) + Frame(m) && Size(a + [m]) == Size(a) + Framed(m)
  {
    if a == [] {
      assert a + [m] == [m] && [m][1..] == [];
      assert Frames([m]) == Frame(m) + [];
    } else {
      FramesSnoc(a[1..], m);
      assert (a + [m])[1..] == a[1..] + [m];
      assert Frame(a[0]) + (Frames(a[1..]) + Frame(m)) == Frame(a[0]) + Frames(a[1..]) + Frame(m);
    }
  }

  /** The prefix of the first message gives its length back. */
  lemma {:induction false} FirstLength(ms: seq<Message>)
    requires ms != [] && Fits(ms[0])
    ensures |Frames(ms)| >= 2 && Length(Frames(ms)[0], Frames(ms)[1]) == |ms[0]|
  {
    assert Frames(ms)[0] == LowByte(|ms[0]|) && Frames(ms)[1] == HighByte(|ms[0]|);
  }

  // ----- Which messages are kept

  /** Drop messages from the front until the rest takes at most `room` bytes. */
  function Keep(ms: seq<Message>, room: nat): seq<Message> {
    if Size(ms) <= room then ms else Keep(ms[1..], room)
  }

  function From(h: seq<Message>, i: nat): seq<Message>
    requires i <= |h|
  {
    h[i..]
  }

  /** `r` is the longest suffix of `h` that takes at most `room` bytes. */
  ghost predicate LongestSuffix(h: seq<Message>, room: nat, r: seq<Message>) {
    && |r| <= |h| && r == From(h, |h| - |r|) && Size(r) <= room
    && forall i | 0 <= i < |h| - |r| :: Size(From(h, i)) > room
  }

  ghost predicate LongestFit(h: seq<Message>, r: seq<Message>) {
    LongestSuffix(h, CAPACITY, r)
  }

  lemma {:induction false} KeepIsLongest(ms: seq<Message>, room: nat)
    ensures LongestSuffix(ms, room, Keep(ms, room))
  {
    if Size(ms) > room {
      KeepIsLongest(ms[1..], room);
      var r := Keep(ms, room);
      forall i | 0 <= i < |ms| - |r| ensures Size(From(ms, i)) > room {
        if i == 0 { assert From(ms, 0) == ms; } else { assert From(ms, i) == From(ms[1..], i - 1); }
      }
    }
  }

  /** Pushing one more message onto a longest fit, after making room, is a longest fit. */
  lemma {:induction false} PushKeepsLongest(h: seq<Message>, r: seq<Message>, m: Message)
    requires LongestFit(h, r) && Fits(m)
    ensures LongestFit(h + [m], Keep(r, CAPACITY - Framed(m)) + [m])
  {
    var room := CAPACITY - Framed(m);
    var k := Keep(r, room);
    KeepIsLongest(r, room);
    FramesSnoc(k, m);
    forall i | 0 <= i < |h| - |k| ensures Size(From(h + [m], i)) > CAPACITY {
      BeforeDoesNotFit(h, r, k, m, i);
    }
    assert From(h + [m], |h| - |k|) == From(h, |h| - |k|) + [m];
    assert From(h, |h| - |k|) == From(r, |r| - |k|);
  }

  lemma {:induction false} BeforeDoesNotFit(h: seq<Message>, r: seq<Message>, k: seq<Message>, m: Message, i: nat)
    requires LongestFit(h, r) && Fits(m) && LongestSuffix(r, CAPACITY - Framed(m), k) && i < |h| - |k|
    ensures Size(From(h + [m], i)) > CAPACITY
  {
    assert From(h + [m], i) == From(h, i) + [m];
    FramesSnoc(From(h, i), m);
    var j := i - (|h| - |r|);
    if j >= 0 { assert From(h, i) == From(r, j); }
  }

  /** One push: oversized messages are dropped silently. */
  function Pushed(ms: seq<Message>, s: Message): seq<Message> {
    if Fits(s) then Keep(ms, CAPACITY - Framed(s)) + [s] else ms
  }

  function PushRun(ms: seq<Message>, ss: seq<Message>): seq<Message>
    decreases ss
  {
    if ss == [] then ms else PushRun(Pushed(ms, ss[0]), ss[1..])
  }

  function AcceptedOne(s: Message): seq<Message> {
    if Fits(s) then [s] else []
  }

  function Accepted(ss: seq<Message>): seq<Message> {
    if ss == [] then [] else AcceptedOne(ss[0]) + Accepted(ss[1..])
  }

  lemma {:induction false} StepKeepsLongest(h: seq<Message>, ms: seq<Message>, s: Message)
    requires LongestFit(h, ms)
    ensures LongestFit(h + AcceptedOne(s), Pushed(ms, s))
  {
    if Fits(s) { PushKeepsLongest(h, ms, s); } else { assert h + [] == h; }
  }

  lemma {:induction false} Assoc(a: seq<Message>, b: seq<Message>, c: seq<Message>)
    ensures a + b + c == a + (b + c)
  {
  }

  /** After any run of pushes the ring holds exactly the longest suffix of the accepted
      messages whose frames fit in 64 KiB. */
  lemma {:induction false} RunKeepsLongest(h: seq<Message>, ms: seq<Message>, ss: seq<Message>)
    requires LongestFit(h, ms)
    ensures LongestSuffix(h + Accepted(ss), 65536, PushRun(ms, ss))
    decreases ss
  {
    if ss == [] {
      assert h + [] == h;
    } else {
      StepKeepsLongest(h, ms, ss[0]);
      RunKeepsLongest(h + AcceptedOne(ss[0]), Pushed(ms, ss[0]), ss[1..]);
      Assoc(h, AcceptedOne(ss[0]), Accepted(ss[1..]));
    }
  }

  // ----- What a reader sees

  function Cut(m: Message): Message {
    if |m| <= MAX_MSG_COPY then m else m[..MAX_MSG_COPY]
  }

  function Shown(m: Message): seq<Message> {
    if Valid(Cut(m)) then [Cut(m)] else []
  }

  function Visible(ms: seq<Message>): seq<Message> {
    if ms == [] then [] else Shown(ms[0]) + Visible(ms[1..])
  }

  lemma {:induction false} SeenStep(seen: seq<Message>, rest: seq<Message>)
    requires rest != []
    ensures seen + Visible(rest) == seen + Shown(rest[0]) + Visible(rest[1..])
  {
    assert seen + (Shown(rest[0]) + Visible(rest[1..])) == seen + Shown(rest[0]) + Visible(rest[1..]);
  }

  /** Messages are strings, so a message is skipped exactly when the cut falls inside a
      character. */
  lemma {:induction false} SkippedIffSplitChar(m: Message)
    requires Valid(m)
    ensures Cut(m) <= m && |Cut(m)| == if |m| <= 1024 then |m| else 1024
    ensures Valid(Cut(m)) <==> |m| <= 1024 || !Continuation(m[1024])
  {
    CutIsValidIff(m, if |m| <= MAX_MSG_COPY then |m| else MAX_MSG_COPY);
    assert m[..|m|] == m;
  }

  /** A string that a reader is shown whole. */
  predicate Short(m: Message) {
    Valid(m) && |m| <= 1024
  }

  lemma {:induction false} ShortAreShown(ms: seq<Message>)
    requires forall i | 0 <= i < |ms| :: Short(ms[i])
    ensures Visible(ms) == ms && Accepted(ms) == ms
  {
    if ms != [] {
      assert Short(ms[0]);
      ShortAreShown(ms[1..]);
      assert [ms[0]] + ms[1..] == ms;
    }
  }

  lemma {:induction false} HeadApart(a: seq<Message>, b: seq<Message>)
    requires a != []
    ensures a + b == [a[0]] + (a[1..] + b) && a == [a[0]] + a[1..]
  {
  }

  lemma {:induction false} VisibleCons(m: Message, ms: seq<Message>)
    ensures Visible([m] + ms) == Shown(m) + Visible(ms)
  {
    assert ([m] + ms)[1..] == ms;
  }

  /** A longer string, or one cut inside a character, does not disturb the others. */
  lemma {:induction false} VisibleAppend(a: seq<Message>, b: seq<Message>)
    ensures Visible(a + b) == Visible(a) + Visible(b)
  {
    if a == [] {
      assert a + b == b;
    } else {
      VisibleAppend(a[1..], b);
      HeadApart(a, b);
      VisibleCons(a[0], a[1..] + b);
      VisibleCons(a[0], a[1..]);
      Assoc(Shown(a[0]), Visible(a[1..]), Visible(b));
    }
  }

  /** After logging any short strings, a reader sees the latest of them, in order: as many as fit
      in 64 KiB with two bytes of length each. */
  lemma {:induction false} ReadersSeeTheLatest(ss: seq<Message>)
    requires forall i | 0 <= i < |ss| :: Short(ss[i])
    ensures LongestSuffix(ss, 65536, Visible(PushRun([], ss)))
  {
    NothingFits();
    RunKeepsLongest([], [], ss);
    ShortAreShown(ss);
    assert [] + Accepted(ss) == ss;
    SuffixIsShown(ss, PushRun([], ss));
  }

  lemma {:induction false} NothingFits()
    ensures LongestFit([], [])
  {
    assert From([], 0) == [];
  }

  lemma {:induction false} SuffixIsShown(ss: seq<Message>, r: seq<Message>)
    requires (forall i | 0 <= i < |ss| :: Short(ss[i])) && |r| <= |ss| && r == From(ss, |ss| - |r|)
    ensures Visible(r) == r
  {
    assert forall i | 0 <= i < |r| :: r[i] == ss[|ss| - |r| + i];
    ShortAreShown(r);
  }

  class KernelRingBuf {
    var buf: array<Byte>
    var head: nat
    var len: nat
    ghost var contents: seq<Byte>
    ghost var msgs: seq<Message>
    ghost var history: seq<Message>

    /** The buffer, read from `head` and wrapping round, is `contents`. */
    ghost predicate Holds()
      reads this, buf
    {
      && buf.Length == CAPACITY && head < CAPACITY && len <= CAPACITY && len == |contents|
      && forall i | 0 <= i < len :: buf[Slot(head, i)] == contents[i]
    }

    ghost predicate Valid()
      reads this, buf
    {
      && Holds()
      && contents == Frames(msgs)
      && AllFit(msgs)
      && LongestFit(history, msgs)
    }

    constructor ()
      ensures Valid() && fresh(buf) && history == [] && msgs == []
    {
      buf := new Byte[CAPACITY](_ => 0);
      head, len := 0, 0;
      contents, msgs, history := [], [], [];
    }

    method PushByte(b: Byte)
      requires Holds() && len < CAPACITY
      modifies this`len, this`contents, buf
      ensures Holds() && contents == old(contents) + [b]
    {
      var tail := Slot(head, len);
      buf[tail] := b;
      len := len + 1;
      contents := contents + [b];
    }

    method ReadByte(offset: nat) returns (b: Byte)
      requires Holds() && offset < len
      ensures b == contents[offset]
    {
      b := buf[Slot(head, offset)];
    }

    /** Advance the head over the first `n` bytes. */
    method Advance(n: nat)
      requires Holds() && n <= len
      modifies this`head, this`len, this`contents
      ensures Holds() && contents == old(contents)[n..]
    {
      assert forall i | 0 <= i < len - n :: Slot(Slot(head, n), i) == Slot(head, n + i);
      contents := contents[n..];
      head := Slot(head, n);
      len := len - n;
    }

    method DropOldest()
      requires Holds() && contents == Frames(msgs) && AllFit(msgs)
      modifies this`head, this`len, this`contents, this`msgs
      ensures Holds() && contents == Frames(msgs)
      ensures msgs == if old(msgs) == [] then [] else old(msgs)[1..]
    {
      FramesLength(msgs);
      if len < 2 {
        head, len := 0, 0;
        contents := [];
        return;
      }
      FirstLength(msgs);
      var lo := ReadByte(0);
      var hi := ReadByte(1);
      var msgLen := Length(lo, hi);
      var total := 2 + msgLen;
      var advance := if total <= len then total else len;
      assert total == |Frame(msgs[0])| <= len;
      Advance(advance);
      msgs := msgs[1..];
    }

    /** Evict the oldest messages until `needed` bytes are free. */
    method MakeRoom(needed: nat)
      requires Holds() && contents == Frames(msgs) && AllFit(msgs) && needed <= CAPACITY
      modifies this`head, this`len, this`contents, this`msgs
      ensures Holds() && contents == Frames(msgs) && AllFit(msgs)
      ensures msgs == Keep(old(msgs), CAPACITY - needed) && len + needed <= CAPACITY
    {
      FramesLength(msgs);
      while CAPACITY - len < needed
        invariant Holds() && contents == Frames(msgs) && AllFit(msgs)
        invariant len == Size(msgs)
        invariant Keep(msgs, CAPACITY - needed) == Keep(old(msgs), CAPACITY - needed)
        decreases |msgs|
      {
        DropOldest();
        FramesLength(msgs);
      }
    }

    method Append(s: Message)
      requires Holds() && len + Framed(s) <= CAPACITY
      modifies this`len, this`contents, buf
      ensures Holds() && contents == old(contents) + Frame(s)
    {
      PushByte(LowByte(|s|));
      PushByte(HighByte(|s|));
      for i := 0 to |s|
        invariant Holds()
        invariant contents == old(contents) + ([LowByte(|s|), HighByte(|s|)] + s[..i])
      {
        PushByte(s[i]);
        assert s[..i + 1] == s[..i] + [s[i]];
      }
      assert s[..|s|] == s;
    }

    method PushStr(s: Message)
      requires Valid()
      modifies this, buf
      ensures Valid() && buf == old(buf)
      ensures history == if |s| + 2 <= 65536 then old(history) + [s] else old(history)
      ensures msgs == Pushed(old(msgs), s)
    {
      var needed := 2 + |s|;
      if needed > CAPACITY { return; }
      PushKeepsLongest(history, msgs, s);
      Admit(s);
      history := history + [s];
    }

    /** Makes room and appends; what is dropped is the oldest. */
    method Admit(s: Message)
      requires Holds() && contents == Frames(msgs) && AllFit(msgs) && Fits(s)
      modifies this`head, this`len, this`contents, this`msgs, buf
      ensures Holds() && contents == Frames(msgs) && AllFit(msgs) && msgs == Pushed(old(msgs), s)
    {
      MakeRoom(2 + |s|);
      FramesSnoc(msgs, s);
      Append(s);
      msgs := msgs + [s];
    }

    /** Read the message whose frame starts at `pos`; `rest` are the messages from there. */
    method ReadMessage(pos: nat, ghost rest: seq<Message>) returns (msgLen: nat, tmp: Message)
      requires Holds() && pos + 2 <= len && contents[pos..] == Frames(rest) && rest != [] && Fits(rest[0])
      ensures msgLen == |rest[0]| && pos + 2 + msgLen <= len && tmp == Cut(rest[0])
      ensures contents[pos + 2 + msgLen..] == Frames(rest[1..])
    {
      FirstLength(rest);
      var lo := ReadByte(pos);
      var hi := ReadByte(pos + 1);
      msgLen := Length(lo, hi);
      assert lo == contents[pos..][0] && hi == contents[pos..][1];
      ghost var m := rest[0];
      assert contents[pos + 2..] == contents[pos..][2..] == m + Frames(rest[1..]);
      assert contents[pos + 2 + msgLen..] == contents[pos + 2..][msgLen..];
      var copyLen := if msgLen <= MAX_MSG_COPY then msgLen else MAX_MSG_COPY;
      tmp := CopyOut(pos + 2, copyLen);
      assert tmp == contents[pos + 2..][..copyLen] == m[..copyLen];
    }

    /** `for_each_msg`: the strings handed to the callback, in order. The source also stops
        at a length that runs past the end, which never happens. */
    method ForEachMsg() returns (seen: seq<Message>)
      requires Valid()
      ensures seen == Visible(msgs)
    {
      seen := [];
      var pos, remaining := 0, len;
      ghost var rest := msgs;
      while remaining >= 2
        invariant 0 <= remaining && 0 <= pos && pos + remaining == len
        invariant contents[pos..] == Frames(rest) && AllFit(rest)
        invariant seen + Visible(rest) == Visible(msgs)
        decreases remaining
      {
        FramesLength(rest);
        var msgLen, tmp := ReadMessage(pos, rest);
        if msgLen > remaining - 2 { break; }
        SeenStep(seen, rest);
        assert seen + Shown(rest[0]) == if Utf8.Valid(tmp) then seen + [tmp] else seen;
        if Utf8.Valid(tmp) { seen := seen + [tmp]; }
        pos, remaining := pos + 2 + msgLen, remaining - 2 - msgLen;
        rest := rest[1..];
      }
      FramesLength(rest);
      assert rest == [];
    }

    method CopyOut(pos: nat, n: nat) returns (tmp: Message)
      requires Holds() && pos + n <= len
      ensures tmp == contents[pos..pos + n]
    {
      tmp := [];
      for i := 0 to n
        invariant tmp == contents[pos..pos + i]
      {
        var b := ReadByte(pos + i);
        tmp := tmp + [b];
      }
    }
  }
}
