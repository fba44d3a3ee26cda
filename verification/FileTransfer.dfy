/** The segmented file transfer of `NDN/transmission`: a server that announces how many segments a
    file has, answers segment interests and pushes all segments of the file last asked for; and a
    client that writes the segments it receives, in whatever order they come, into a buffer.

    The classes follow the handlers of the source. `Step` is the protocol: everything the server,
    its pusher thread, other clients and the network can do, one step at a time. */
module FileTransfer {
  import opened Basics

  type FileName = string
  type Files = map<FileName, Bytes>

  const MAX_SEGMENT_SIZE := 8000

  // ----- segments -----

  /** What `seekg`, `read` and `gcount` give for a segment; nothing past the end of the file. */
  function Segment(file: Bytes, s: nat): (content: Bytes)
    ensures |content| <= MAX_SEGMENT_SIZE
  {
    file[Min(s * MAX_SEGMENT_SIZE, |file|)..Min((s + 1) * MAX_SEGMENT_SIZE, |file|)]
  }

  /** The bytes of a file from a position on, at most `n`. */
  function Upto(file: Bytes, position: nat, n: nat): (content: Bytes)
    ensures |content| == Max(0, Min(n, |file| - position))
    ensures forall i :: 0 <= i < |content| ==> content[i] == file[position + i]
  {
    if position >= |file| then [] else file[position..Min(position + n, |file|)]
  }

  /** A segment is what is read at a multiple of the segment size. */
  lemma SegmentIsRead(file: Bytes, s: nat)
    ensures Upto(file, s * MAX_SEGMENT_SIZE, MAX_SEGMENT_SIZE) == Segment(file, s)
  {
  }

  /** The first `n` segments, one after the other. */
  function Concat(file: Bytes, n: nat): (content: Bytes) {
    if n == 0 then [] else Concat(file, n - 1) + Segment(file, n - 1)
  }

  lemma {:induction false} SegmentsMakeFile(file: Bytes, n: nat)
    ensures Concat(file, n) == file[..Min(n * MAX_SEGMENT_SIZE, |file|)]
    ensures n == SegmentCount(|file|) ==> Concat(file, n) == file
  {
    if n > 0 {
      SegmentsMakeFile(file, n - 1);
    }
  }

  /** The announced number of segments. A missing file has size -1, and C++ division truncates
      towards zero, so it is announced with one segment. */
  function SegmentCount(fileSize: int): (n: nat)
    requires fileSize >= -1
    ensures fileSize > 0 ==> n > 0 && (n - 1) * MAX_SEGMENT_SIZE < fileSize <= n * MAX_SEGMENT_SIZE
  {
    if fileSize == -1 then 1
    else fileSize / MAX_SEGMENT_SIZE + (if fileSize % MAX_SEGMENT_SIZE != 0 then 1 else 0)
  }

  function FileSize(files: Files, f: FileName): int {
    if f in files then |files[f]| else -1
  }

  // ----- the announcement: to_string and stoi -----

  predicate IsDigit(b: byte) {
    48 <= b <= 57
  }

  function ToDecimal(n: nat): (s: Bytes)
    ensures s != [] && forall i :: 0 <= i < |s| ==> IsDigit(s[i])
  {
    if n < 10 then [48 + n] else ToDecimal(n / 10) + [48 + n % 10]
  }

  /** The value of the leading digits, continuing from `acc`. */
  function Digits(s: Bytes, acc: nat): nat
    decreases |s|
  {
    if s == [] || !IsDigit(s[0]) then acc else Digits(s[1..], acc * 10 + (s[0] - 48))
  }

  function Stoi(s: Bytes): nat {
    Digits(s, 0)
  }

  lemma {:induction false} DigitsConcat(s: Bytes, t: Bytes, acc: nat)
    requires forall i :: 0 <= i < |s| ==> IsDigit(s[i])
    ensures Digits(s + t, acc) == Digits(t, Digits(s, acc))
    decreases |s|
  {
    if s == [] {
      assert s + t == t;
    } else {
      assert (s + t)[1..] == s[1..] + t;
      DigitsConcat(s[1..], t, acc * 10 + (s[0] - 48));
    }
  }

  /** The client parses the announcement with no end mark, so it may read on into what follows the
      content in the packet; it still gets the number, unless a digit follows. */
  lemma {:induction false} StoiUndoesToDecimal(n: nat, after: Bytes)
    requires after == [] || !IsDigit(after[0])
    ensures Stoi(ToDecimal(n) + after) == n
  {
    DecimalValue(n);
    DigitsConcat(ToDecimal(n), after, 0);
  }

  lemma {:induction false} DecimalValue(n: nat)
    ensures Digits(ToDecimal(n), 0) == n
  {
    if n < 10 {
      assert ToDecimal(n)[1..] == [];
    } else {
      var last: Bytes := [48 + n % 10];
      DecimalValue(n / 10);
      DigitsConcat(ToDecimal(n / 10), last, 0);
      assert last[1..] == [];
    }
  }

  /** Hundreds, tens and ones, in ASCII. */
  lemma DecimalPlaces(a: nat, b: nat, c: nat)
    requires a < 10 && b < 10 && c < 10
    ensures ToDecimal(c) == [48 + c]
    ensures b > 0 ==> ToDecimal(10 * b + c) == [48 + b, 48 + c]
    ensures a > 0 ==> ToDecimal(100 * a + 10 * b + c) == [48 + a, 48 + b, 48 + c]
  {
    assert (100 * a + 10 * b + c) / 10 == 10 * a + b && (100 * a + 10 * b + c) % 10 == c;
    assert (10 * b + c) / 10 == b && (10 * b + c) % 10 == c;
    assert (10 * a + b) / 10 == a && (10 * a + b) % 10 == b;
    if a > 0 { assert ToDecimal(10 * a + b) == [48 + a] + [48 + b]; }
  }

  /** What is announced for no file, for an empty one, and for the first sizes. */
  lemma Announcements()
    ensures ToDecimal(SegmentCount(-1)) == [49] && ToDecimal(SegmentCount(0)) == [48]
    ensures SegmentCount(1) == 1 && SegmentCount(8000) == 1 && SegmentCount(8001) == 2 && SegmentCount(16000) == 2
  {
  }

  // ----- the client -----

  /** The client's variables, as values. `pending` is its table of pending interests. */
  datatype Client = Waiting | Client(buffer: Bytes, segment: int, count: nat, size: int, pending: set<nat>)

  function Interests(n: nat): (s: set<nat>)
    ensures forall x: nat :: x in s <==> x < n
  {
    if n == 0 then {} else Interests(n - 1) + {n - 1}
  }

  /** `onFile`, apart from the contents of the fresh buffer. */
  predicate OnFileResult(announced: nat, c: Client) {
    && c.Client? && |c.buffer| == announced * MAX_SEGMENT_SIZE
    && c.segment == announced - 1 && c.count == 0 && c.pending == Interests(announced)
  }

  predicate Fits(c: Client, s: nat, content: Bytes) {
    c.Client? && s in c.pending && s * MAX_SEGMENT_SIZE + |content| <= |c.buffer|
  }

  /** A segment's data satisfies its pending interest: `onLastSegment` for the last segment,
      `onSegment` for the others. */
  function Receive(c: Client, s: nat, content: Bytes): (c': Client)
    requires Fits(c, s, content)
  {
    c.(buffer := Splice(c.buffer, s * MAX_SEGMENT_SIZE, content), count := c.count + 1,
       size := if s == c.segment then |content| else c.size, pending := c.pending - {s})
  }

  /** The write-out at the end of `getFile`. */
  function Written(c: Client): (file: Bytes)
    requires c.Client? && 0 <= c.segment * MAX_SEGMENT_SIZE + c.size <= |c.buffer|
  {
    c.buffer[..c.segment * MAX_SEGMENT_SIZE + c.size]
  }

  class FileClient {
    var buffer: array<byte>
    var segment: int
    var count: nat
    var size: int
    var pending: set<nat>

    constructor ()
      ensures fresh(buffer) && buffer.Length == 0 && count == 0 && pending == {}
    {
      buffer := new byte[0];
      segment, count, size, pending := 0, 0, 0, {};
    }

    ghost function Value(): Client
      reads this, buffer
    {
      Client(buffer[..], segment, count, size, pending)
    }

    method OnFile(content: Bytes)
      requires Stoi(content) > 0 && pending == {}
      modifies this
      ensures fresh(buffer)
      ensures count == old(count)
      ensures count == 0 ==> OnFileResult(Stoi(content), Value())
    {
      var segmentNumber := Stoi(content);
      buffer := new byte[segmentNumber * MAX_SEGMENT_SIZE];
      segment := segmentNumber - 1;
      var i := 0;
      while i < segment
        invariant 0 <= i <= segment && pending == Interests(i)
        invariant segment == segmentNumber - 1 && count == old(count)
        invariant fresh(buffer) && buffer.Length == segmentNumber * MAX_SEGMENT_SIZE
      {
        pending := pending + {i};
        i := i + 1;
      }
      pending := pending + {segmentNumber - 1};
    }

    /** The copying loop `onSegment` and `onLastSegment` share. */
    method Store(content: Bytes, s: nat)
      requires s * MAX_SEGMENT_SIZE + |content| <= buffer.Length
      modifies buffer
      ensures buffer[..] == Splice(old(buffer[..]), s * MAX_SEGMENT_SIZE, content)
    {
      var bias := s * MAX_SEGMENT_SIZE;
      var i := 0;
      while i < |content|
        invariant 0 <= i <= |content|
        invariant forall k :: 0 <= k < buffer.Length ==>
          buffer[k] == if bias <= k < bias + i then content[k - bias] else old(buffer[k])
      {
        buffer[i + bias] := content[i];
        i := i + 1;
      }
    }

    method OnSegment(content: Bytes, s: nat)
      requires Fits(Value(), s, content) && s != segment
      modifies this, buffer
      ensures buffer == old(buffer)
      ensures Value() == Receive(old(Value()), s, content)
    {
      pending := pending - {s};
      count := count + 1;
      Store(content, s);
    }

    method OnLastSegment(content: Bytes, s: nat)
      requires Fits(Value(), s, content) && s == segment
      modifies this, buffer
      ensures buffer == old(buffer)
      ensures Value() == Receive(old(Value()), s, content)
    {
      pending := pending - {s};
      count := count + 1;
      Store(content, s);
      size := |content|;
    }

    method WriteOut() returns (file: Bytes)
      requires 0 <= segment * MAX_SEGMENT_SIZE + size <= buffer.Length
      ensures file == Written(Value())
    {
      file := buffer[..segment * MAX_SEGMENT_SIZE + size];
    }
  }

  // ----- the server -----

  datatype Packet = FileData(file: FileName, announcement: Bytes) | SegmentData(file: FileName, segment: nat, content: Bytes)

  class FileServer {
    const files: Files
    var sharedFileName: FileName
    var sharedSegment: nat

    constructor (fs: Files)
      ensures files == fs && sharedSegment == 0 && sharedFileName == ""
    {
      files := fs;
      sharedFileName, sharedSegment := "", 0;
    }

    method OnFileInterest(fileName: FileName) returns (data: Packet)
      modifies this
      ensures sharedFileName == fileName && sharedSegment == SegmentCount(FileSize(files, fileName))
      ensures data == FileData(fileName, ToDecimal(sharedSegment))
    {
      sharedFileName := fileName;
      var fileSize := FileSize(files, fileName);
      var segmentCount := SegmentCount(fileSize);
      sharedSegment := segmentCount;
      data := FileData(fileName, ToDecimal(segmentCount));
    }

    /** `onSegmentInterest` and `pushData` build the same packet, if the file can be opened: seek,
        read as much as the buffer takes, and send as much as was read. */
    method ReadSegment(fileName: FileName, segmentNumber: nat) returns (data: Option<Packet>)
      ensures data == if fileName in files then Some(SegmentData(fileName, segmentNumber, Segment(files[fileName], segmentNumber))) else None
    {
      if fileName !in files {
        return None;
      }
      var file := files[fileName];
      var position := segmentNumber * MAX_SEGMENT_SIZE;
      var buffer := new byte[MAX_SEGMENT_SIZE];
      var nCharsRead := Read(file, position, buffer);
      SegmentIsRead(file, segmentNumber);
      data := Some(SegmentData(fileName, segmentNumber, buffer[..nCharsRead]));
    }

    /** `istream::read` from a position, which may lie behind the end: fills the buffer up to its
        size or to the end of the file, and returns `gcount`. */
    static method Read(file: Bytes, position: nat, buffer: array<byte>) returns (count: nat)
      modifies buffer
      ensures count <= buffer.Length && buffer[..count] == Upto(file, position, buffer.Length)
    {
      count := 0;
      while count < buffer.Length && position + count < |file|
        invariant 0 <= count <= buffer.Length && position + count <= Max(position, |file|)
        invariant forall i :: 0 <= i < count ==> buffer[i] == file[position + i]
      {
        buffer[count] := file[position + count];
        count := count + 1;
      }
    }

    /** `FilePusher::run` when no file interest comes in meanwhile: every segment of the shared
        file, once and in order. */
    method Push() returns (pushed: seq<Packet>)
      ensures sharedFileName !in files ==> pushed == []
      ensures sharedFileName in files ==>
                && |pushed| == sharedSegment
                && forall i :: 0 <= i < |pushed| ==>
                     pushed[i] == SegmentData(sharedFileName, i, Segment(files[sharedFileName], i))
    {
      pushed := [];
      var i := 0;
      while i < sharedSegment
        invariant 0 <= i <= sharedSegment
        invariant sharedFileName !in files ==> pushed == []
        invariant sharedFileName in files ==>
          && |pushed| == i
          && forall k :: 0 <= k < |pushed| ==>
               pushed[k] == SegmentData(sharedFileName, k, Segment(files[sharedFileName], k))
      {
        var data := ReadSegment(sharedFileName, i);
        if data.Some? {
          pushed := pushed + [data.value];
        }
        i := i + 1;
      }
    }
  }

  // ----- the protocol -----

  /** The pusher thread between the atomic steps of its loop: it tests `i < sharedSegment` and
      then reads `sharedFileName`, and a file interest may come in between. */
  datatype Pusher = Idle | Testing(i: nat) | Pushing(i: nat)

  datatype State = State(shared: FileName, sharedSegment: nat, pusher: Pusher, sent: set<Packet>, client: Client)

  /** Everything that can happen. A packet once sent can be delivered at any later time, more than
      once or never; the face hands data to the client only while an interest for it is pending,
      and takes the interest away. */
  datatype Event =
    | FileInterest(file: FileName)
    | SegmentInterest(file: FileName, segment: nat)
    | PusherWakes | PusherTests | PusherPushes
    | DeliverFile(announcement: Bytes, after: Bytes, started: Client)
    | DeliverSegment(segment: nat, content: Bytes)

  function SegmentPacket(files: Files, f: FileName, s: nat): (ps: set<Packet>) {
    if f in files then {SegmentData(f, s, Segment(files[f], s))} else {}
  }

  /** One step of the system in which the client wants file `want`. */
  predicate Step(files: Files, want: FileName, st: State, e: Event, st': State) {
    match e
    case FileInterest(f) =>
      var n := SegmentCount(FileSize(files, f));
      st' == st.(shared := f, sharedSegment := n, sent := st.sent + {FileData(f, ToDecimal(n))})
    case SegmentInterest(f, s) =>
      st' == st.(sent := st.sent + SegmentPacket(files, f, s))
    case PusherWakes =>
      st.pusher.Idle? && st' == st.(pusher := Testing(0))
    case PusherTests =>
      && st.pusher.Testing?
      && st' == st.(pusher := if st.pusher.i < st.sharedSegment then Pushing(st.pusher.i) else Idle)
    case PusherPushes =>
      && st.pusher.Pushing?
      && st' == st.(pusher := Testing(st.pusher.i + 1), sent := st.sent + SegmentPacket(files, st.shared, st.pusher.i))
    case DeliverFile(announcement, after, started) =>
      && st.client.Waiting? && FileData(want, announcement) in st.sent
      && (after == [] || !IsDigit(after[0]))
      && OnFileResult(Stoi(announcement + after), started)
      && st' == st.(client := started)
    case DeliverSegment(s, content) =>
      && Deliverable(want, st, s, content)
      && Fits(st.client, s, content)
      && st' == st.(client := Receive(st.client, s, content))
  }

  predicate Deliverable(want: FileName, st: State, s: nat, content: Bytes) {
    SegmentData(want, s, content) in st.sent && st.client.Client? && s in st.client.pending
  }

  predicate Init(st: State) {
    st.client.Waiting? && st.sent == {} && st.pusher.Idle? && st.sharedSegment == 0
  }

  ghost predicate Run(files: Files, want: FileName, states: seq<State>, events: seq<Event>) {
    && |states| == |events| + 1 && Init(states[0])
    && forall k :: 0 <= k < |events| ==> Step(files, want, states[k], events[k], states[k + 1])
  }

  // ----- what every run keeps -----

  /** Packets never lie: whatever was asked for in between, a packet carries what its name says. */
  ghost predicate Honest(files: Files, p: Packet) {
    match p
    case FileData(f, a) => a == ToDecimal(SegmentCount(FileSize(files, f)))
    case SegmentData(f, s, content) => f in files && content == Segment(files[f], s)
  }

  /** Segment `s` of the file is in place in the buffer. */
  ghost predicate InPlace(file: Bytes, buffer: Bytes, s: nat) {
    var at, content := s * MAX_SEGMENT_SIZE, Segment(file, s);
    at + |content| <= |buffer| && buffer[at..at + |content|] == content
  }

  ghost predicate Inv(files: Files, want: FileName, st: State)
    requires want in files && files[want] != []
  {
    var file := files[want];
    var n := SegmentCount(|file|);
    && (forall p :: p in st.sent ==> Honest(files, p))
    && (st.client.Client? ==>
          var c := st.client;
          && |c.buffer| == n * MAX_SEGMENT_SIZE && c.segment == n - 1
          && c.pending <= Interests(n) && c.count + |c.pending| == n
          && (forall s: nat :: s < n && s !in c.pending ==> InPlace(file, c.buffer, s))
          && (n - 1 !in c.pending ==> c.size == |Segment(file, n - 1)|))
  }

  lemma InterestsSize(n: nat)
    ensures |Interests(n)| == n
  {
    if n > 0 {
      InterestsSize(n - 1);
      assert Interests(n) == Interests(n - 1) + {n - 1};
    }
  }

  /** Segments of the file fit their places in the buffer. */
  lemma SegmentFits(file: Bytes, s: nat)
    requires file != [] && s < SegmentCount(|file|)
    ensures s * MAX_SEGMENT_SIZE + |Segment(file, s)| <= SegmentCount(|file|) * MAX_SEGMENT_SIZE
    ensures s + 1 < SegmentCount(|file|) ==> |Segment(file, s)| == MAX_SEGMENT_SIZE
  {
    var n := SegmentCount(|file|);
    assert s * MAX_SEGMENT_SIZE + MAX_SEGMENT_SIZE <= n * MAX_SEGMENT_SIZE;
  }

  /** Storing one segment leaves the others in place. */
  lemma SpliceKeeps(file: Bytes, buffer: Bytes, s: nat, x: nat)
    requires file != [] && s < SegmentCount(|file|) && x < SegmentCount(|file|)
    requires |buffer| == SegmentCount(|file|) * MAX_SEGMENT_SIZE
    requires x == s || InPlace(file, buffer, x)
    ensures s * MAX_SEGMENT_SIZE + |Segment(file, s)| <= |buffer|
    ensures InPlace(file, Splice(buffer, s * MAX_SEGMENT_SIZE, Segment(file, s)), x)
  {
    SegmentFits(file, s);
    SegmentFits(file, x);
    var at, content := s * MAX_SEGMENT_SIZE, Segment(file, s);
    var b' := Splice(buffer, at, content);
    var lo := x * MAX_SEGMENT_SIZE;
    var hi := lo + |Segment(file, x)|;
    if x == s {
      assert b'[at..at + |content|] == content;
    } else {
      assert x < s ==> lo + MAX_SEGMENT_SIZE <= at;
      assert x > s ==> at + MAX_SEGMENT_SIZE <= lo;
      assert forall k :: lo <= k < hi ==> b'[k] == buffer[k];
      assert b'[lo..hi] == buffer[lo..hi];
    }
  }

  lemma StepKeepsInv(files: Files, want: FileName, st: State, e: Event, st': State)
    requires want in files && files[want] != []
    requires Inv(files, want, st) && Step(files, want, st, e, st')
    ensures Inv(files, want, st')
  {
    var file := files[want];
    var n := SegmentCount(|file|);
    match e
    case DeliverFile(announcement, after, started) =>
      StoiUndoesToDecimal(n, after);
      InterestsSize(n);
    case DeliverSegment(s, content) =>
      assert Honest(files, SegmentData(want, s, content));
      forall x: nat | x < n && x !in st'.client.pending ensures InPlace(file, st'.client.buffer, x) {
        SpliceKeeps(file, st.client.buffer, s, x);
      }
    case _ =>
  }

  /** In every state of every run, each segment whose interest is satisfied is in its place in the
      buffer, and `m_count` is the number of satisfied interests. */
  lemma {:induction false} EveryStateIsSound(files: Files, want: FileName, states: seq<State>, events: seq<Event>, k: nat)
    requires want in files && files[want] != []
    requires Run(files, want, states, events) && k < |states|
    ensures Inv(files, want, states[k])
  {
    if k > 0 {
      EveryStateIsSound(files, want, states, events, k - 1);
      StepKeepsInv(files, want, states[k - 1], events[k - 1], states[k]);
    }
  }

  /** No delivery can write outside the buffer. */
  lemma DeliveriesFit(files: Files, want: FileName, states: seq<State>, events: seq<Event>, k: nat, s: nat, content: Bytes)
    requires want in files && files[want] != []
    requires Run(files, want, states, events) && k < |states|
    requires Deliverable(want, states[k], s, content)
    ensures Fits(states[k].client, s, content)
  {
    EveryStateIsSound(files, want, states, events, k);
    assert Honest(files, SegmentData(want, s, content));
    SegmentFits(files[want], s);
  }

  lemma {:induction false} BufferHoldsFile(file: Bytes, buffer: Bytes, n: nat)
    requires file != [] && n <= SegmentCount(|file|)
    requires |buffer| == SegmentCount(|file|) * MAX_SEGMENT_SIZE
    requires forall s: nat :: s < n ==> InPlace(file, buffer, s)
    ensures Min(n * MAX_SEGMENT_SIZE, |file|) <= |buffer|
    ensures buffer[..Min(n * MAX_SEGMENT_SIZE, |file|)] == file[..Min(n * MAX_SEGMENT_SIZE, |file|)]
  {
    if n > 0 {
      BufferHoldsFile(file, buffer, n - 1);
      assert InPlace(file, buffer, n - 1);
      SegmentFits(file, n - 1);
      var lo, hi := Min((n - 1) * MAX_SEGMENT_SIZE, |file|), Min(n * MAX_SEGMENT_SIZE, |file|);
      assert lo == (n - 1) * MAX_SEGMENT_SIZE;
      assert Segment(file, n - 1) == file[lo..hi] == buffer[lo..hi];
      assert file[..hi] == file[..lo] + file[lo..hi];
      assert buffer[..hi] == buffer[..lo] + buffer[lo..hi];
    }
  }

  /** Reassembly in any order. In every run, whatever else the server is asked for and however
      pushed and answered segments are mixed, reordered, repeated or lost: once no interest is
      pending, the client writes out exactly the file. */
  lemma Reassembly(files: Files, want: FileName, states: seq<State>, events: seq<Event>, k: nat)
    requires want in files && files[want] != []
    requires Run(files, want, states, events) && k < |states|
    requires states[k].client.Client? && states[k].client.pending == {}
    ensures var c := states[k].client;
            && 0 <= c.segment * MAX_SEGMENT_SIZE + c.size <= |c.buffer|
            && Written(c) == files[want]
            && c.count == SegmentCount(|files[want]|)
  {
    EveryStateIsSound(files, want, states, events, k);
    var file, c := files[want], states[k].client;
    var n := SegmentCount(|file|);
    SegmentFits(file, n - 1);
    BufferHoldsFile(file, c.buffer, n);
    assert Min(n * MAX_SEGMENT_SIZE, |file|) == |file|;
    assert c.segment * MAX_SEGMENT_SIZE + c.size == |file|;
    assert file[..|file|] == file;
  }

  /** A started transfer can always still be completed: from every sound state there is a
      continuation after which no interest is pending. */
  lemma {:induction false} CanFinish(files: Files, want: FileName, st: State)
    returns (states: seq<State>, events: seq<Event>)
    requires want in files && files[want] != [] && Inv(files, want, st) && st.client.Client?
    ensures |states| == |events| + 1 && states[0] == st
    ensures forall k :: 0 <= k < |events| ==> Step(files, want, states[k], events[k], states[k + 1])
    ensures states[|events|].client.Client? && states[|events|].client.pending == {}
    decreases |st.client.pending|
  {
    if st.client.pending == {} {
      states, events := [st], [];
    } else {
      var s :| s in st.client.pending;
      var content := Segment(files[want], s);
      SegmentFits(files[want], s);
      var e1 := SegmentInterest(want, s);
      var st1 := st.(sent := st.sent + SegmentPacket(files, want, s));
      StepKeepsInv(files, want, st, e1, st1);
      var e2 := DeliverSegment(s, content);
      var st2 := st1.(client := Receive(st1.client, s, content));
      StepKeepsInv(files, want, st1, e2, st2);
      states, events := CanFinish(files, want, st2);
      states, events := [st, st1] + states, [e1, e2] + events;
    }
  }
}
