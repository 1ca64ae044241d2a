/**
 The magnetic stripe reader: card samples go into one bit queue a track, and come out as keyboard reports, a key
 release between any two keys.
 */
module Magstripe {
  import opened CircularBitBuffer
  import opened Words

  const TOTAL_TRACKS := 3

  datatype Key = KeyNone | Key1 | Key0 | KeyEnter

  /** The usage codes of the report. */
  function KeyCode(k: Key): (c: bv8) {
    match k
    case KeyNone => 0
    case Key1 => 30
    case Key0 => 39
    case KeyEnter => 40
  }

  // ----- sampling

  /** The lines of the reader: card present, and clock and data of each track. */
  datatype Status = Status(present: bool, clock: seq<bool>, data: seq<bool>)

  predicate StatusOk(s: Status) {
    |s.clock| == TOTAL_TRACKS && |s.data| == TOTAL_TRACKS
  }

  predicate SamplesOk(ss: seq<Status>) {
    forall i :: 0 <= i < |ss| ==> StatusOk(ss[i])
  }

  const NO_LINES := Status(false, [false, false, false], [false, false, false])

  predicate Rising(prev: Status, s: Status, t: nat)
    requires StatusOk(prev) && StatusOk(s) && t < TOTAL_TRACKS
  {
    s.clock[t] && !prev.clock[t]
  }

  /** The number of samples up to the one without a card. */
  function WhilePresent(ss: seq<Status>): (n: nat)
    ensures n <= |ss| && (n < |ss| ==> !ss[n].present) && forall i :: 0 <= i < n ==> ss[i].present
  {
    if ss == [] || !ss[0].present then 0 else 1 + WhilePresent(ss[1..])
  }

  /** The data levels of a track at the rising edges of its clock, all clocks low before the first sample. */
  function Levels(ss: seq<Status>, t: nat): (bits: seq<bool>)
    requires SamplesOk(ss) && t < TOTAL_TRACKS
  {
    if ss == [] then []
    else
      var n := |ss| - 1;
      Levels(ss[..n], t) + if Rising(if n == 0 then NO_LINES else ss[n - 1], ss[n], t) then [ss[n].data[t]] else []
  }

  // ----- bits stored

  /** Bits stored one by one. */
  function StoreAll(q: seq<bool>, xs: seq<bool>, size: nat): (r: seq<bool>)
    requires size > 0
    ensures |r| == |q| + |xs|
  {
    if xs == [] then q else Stored(StoreAll(q, xs[..|xs| - 1], size), xs[|xs| - 1], size)
  }

  lemma {:induction false} StoreAllAppend(q: seq<bool>, xs: seq<bool>, ys: seq<bool>, size: nat)
    requires size > 0
    ensures StoreAll(q, xs + ys, size) == StoreAll(StoreAll(q, xs, size), ys, size)
  {
    if ys == [] {
      assert xs + ys == xs;
    } else {
      var n := |ys| - 1;
      assert (xs + ys)[..|xs| + n] == xs + ys[..n];
      StoreAllAppend(q, xs, ys[..n], size);
    }
  }

  /** Bits that there is room for are appended. */
  lemma {:induction false} StoreAllFits(q: seq<bool>, xs: seq<bool>, size: nat)
    requires size > 0 && |q| + |xs| <= size
    ensures StoreAll(q, xs, size) == q + xs
  {
    if xs != [] {
      StoreAllFits(q, xs[..|xs| - 1], size);
    }
  }

  /**
   More bits than places, in an empty queue: each place has the or of the bits that fell on it, and then come
   zeros.
   */
  lemma {:induction false} StoreAllOverFull(xs: seq<bool>, size: nat, k: nat)
    requires size > 0 && k < |xs|
    ensures StoreAll([], xs, size)[k] <==> exists j :: 0 <= j < |xs| && Turned(size, j) == k && xs[j]
  {
    var n := |xs| - 1;
    if k < n {
      StoreAllOverFull(xs[..n], size, k);
    }
    forall j | 0 <= j < |xs| && Turned(size, j) == k && xs[j] ensures StoreAll([], xs, size)[k] {
      if j < n {
        assert xs[..n][j];
      }
    }
  }

  // ----- reports

  /** What the reports depend on: `current` is the track being sent, TOTAL_TRACKS when none is left. */
  datatype Board = Board(release: bool, current: nat, tracks: seq<seq<bool>>)

  predicate BoardOk(b: Board) {
    |b.tracks| == TOTAL_TRACKS && b.current <= TOTAL_TRACKS
  }

  function KeyOf(x: bool): (k: Key) {
    if x then Key1 else Key0
  }

  /** The keys of a track: as many bits as its count in sixteen bits says, and an enter. */
  function TrackKeys(bits: seq<bool>): (ks: seq<Key>) {
    if U16(|bits|) == 0 then [KeyEnter] else [KeyOf(bits[0])] + TrackKeys(bits[1..])
  }

  /** The keys still to come: the bits of the remaining tracks, an enter behind each. */
  function Keys(tracks: seq<seq<bool>>, current: nat): (ks: seq<Key>)
    requires current <= |tracks|
    decreases |tracks| - current
  {
    if current == |tracks| then [] else TrackKeys(tracks[current]) + Keys(tracks, current + 1)
  }

  function Report(b: Board): (k: Key)
    requires BoardOk(b)
  {
    if !b.release || b.current == TOTAL_TRACKS then KeyNone
    else if U16(|b.tracks[b.current]|) == 0 then KeyEnter
    else KeyOf(b.tracks[b.current][0])
  }

  function Next(b: Board): (r: Board)
    requires BoardOk(b)
    ensures BoardOk(r)
  {
    var t := b.current;
    if !b.release || t == TOTAL_TRACKS then b.(release := !b.release)
    else if U16(|b.tracks[t]|) == 0 then b.(release := false, current := t + 1)
    else b.(release := false, tracks := b.tracks[t := b.tracks[t][1..]])
  }

  function Remaining(b: Board): (ks: seq<Key>)
    requires BoardOk(b)
  {
    Keys(b.tracks, b.current)
  }

  lemma {:induction false} LaterTracks(tracks: seq<seq<bool>>, t: nat, bits: seq<bool>, current: nat)
    requires t < current <= |tracks|
    ensures Keys(tracks[t := bits], current) == Keys(tracks, current)
    decreases |tracks| - current
  {
    if current < |tracks| {
      LaterTracks(tracks, t, bits, current + 1);
    }
  }

  /** A key report takes the first of the remaining keys; a release report takes none. */
  lemma ReportTakes(b: Board)
    requires BoardOk(b)
    ensures Next(b).release == !b.release
    ensures !b.release || Remaining(b) == [] ==> Report(b) == KeyNone && Remaining(Next(b)) == Remaining(b)
    ensures b.release && Remaining(b) != [] ==> Remaining(b) == [Report(b)] + Remaining(Next(b)) && Report(b) != KeyNone
  {
    var t := b.current;
    if t < TOTAL_TRACKS && b.release {
      assert |TrackKeys(b.tracks[t])| > 0;
      if U16(|b.tracks[t]|) != 0 {
        LaterTracks(b.tracks, t, b.tracks[t][1..], t + 1);
        assert Remaining(b) == [KeyOf(b.tracks[t][0])] + (TrackKeys(b.tracks[t][1..]) + Keys(b.tracks, t + 1));
      }
    }
  }

  /** The reports of n calls. */
  function Reports(b: Board, n: nat): (ks: seq<Key>)
    requires BoardOk(b)
    ensures |ks| == n
    decreases n
  {
    if n == 0 then [] else [Report(b)] + Reports(Next(b), n - 1)
  }

  function After(b: Board, n: nat): (r: Board)
    requires BoardOk(b)
    ensures BoardOk(r)
    decreases n
  {
    if n == 0 then b else After(Next(b), n - 1)
  }

  lemma {:induction false} ReportsNext(b: Board, n: nat)
    requires BoardOk(b)
    ensures Reports(b, n + 1) == Reports(b, n) + [Report(After(b, n))]
    ensures After(b, n + 1) == Next(After(b, n))
    decreases n
  {
    if n > 0 {
      ReportsNext(Next(b), n - 1);
    }
  }

  /** The number of key reports among the first i, the releases left out; the first is one if `first`. */
  function KeysBefore(i: nat, first: bool): (n: nat) {
    if first then (i + 1) / 2 else i / 2
  }

  /** Report i is a key exactly in every other place, and these are the remaining keys in order, then none. */
  lemma {:induction false} ReportsAlternate(b: Board, n: nat, i: nat)
    requires BoardOk(b) && i < n
    ensures var keyPlace := b.release == (i % 2 == 0);
            var k := KeysBefore(i, b.release);
            Reports(b, n)[i] == if keyPlace && k < |Remaining(b)| then Remaining(b)[k] else KeyNone
    decreases n
  {
    ReportTakes(b);
    if i > 0 {
      ReportsAlternate(Next(b), n - 1, i - 1);
    }
  }

  /** The keys among the reports, the releases left out. */
  function Pressed(ks: seq<Key>): (r: seq<Key>) {
    if ks == [] then [] else (if ks[0] == KeyNone then [] else [ks[0]]) + Pressed(ks[1..])
  }

  /** Enough calls press every remaining key, once and in order, and nothing else. */
  lemma {:induction false} AllKeysPressed(b: Board, n: nat)
    requires BoardOk(b) && n + (if b.release then 1 else 0) >= 2 * |Remaining(b)|
    ensures Pressed(Reports(b, n)) == Remaining(b)
    decreases n
  {
    if n > 0 {
      ReportTakes(b);
      assert Reports(b, n)[1..] == Reports(Next(b), n - 1);
      AllKeysPressed(Next(b), n - 1);
    }
  }

  // ----- the reader

  /** What one sample adds to a track. */
  function Added(prev: Status, lcl: Status, t: nat): (bits: seq<bool>)
    requires StatusOk(prev) && StatusOk(lcl) && t < TOTAL_TRACKS
  {
    if Rising(prev, lcl, t) then [lcl.data[t]] else []
  }

  function Before(ss: seq<Status>, i: nat): (prev: Status)
    requires i <= |ss|
  {
    if i == 0 then NO_LINES else ss[i - 1]
  }

  lemma LevelsNext(ss: seq<Status>, i: nat, t: nat)
    requires SamplesOk(ss) && i < |ss| && t < TOTAL_TRACKS
    ensures Levels(ss[..i + 1], t) == Levels(ss[..i], t) + Added(Before(ss, i), ss[i], t)
  {
    assert ss[..i + 1][..i] == ss[..i];
  }

  /** The queues when the levels sampled have been stored; `size` is the number of bits that a queue has places for. */
  function Sampled(tracks: seq<seq<bool>>, ss: seq<Status>, size: nat): (r: seq<seq<bool>>)
    requires SamplesOk(ss) && |tracks| == TOTAL_TRACKS && size > 0
    ensures |r| == TOTAL_TRACKS
  {
    seq(TOTAL_TRACKS, t requires 0 <= t < TOTAL_TRACKS => StoreAll(tracks[t], Levels(ss, t), size))
  }

  lemma SampledNone(tracks: seq<seq<bool>>, ss: seq<Status>, size: nat)
    requires |tracks| == TOTAL_TRACKS && size > 0
    ensures Sampled(tracks, ss[..0], size) == tracks
  {
  }

  /** One sample more. */
  lemma SampledNext(contents: seq<seq<bool>>, tracks: seq<seq<bool>>, ss: seq<Status>, size: nat, i: nat)
    requires SamplesOk(ss) && i < |ss| && |contents| == |tracks| == TOTAL_TRACKS && size > 0
    requires forall t :: 0 <= t < TOTAL_TRACKS ==>
               contents[t] == StoreAll(Sampled(tracks, ss[..i], size)[t], Added(Before(ss, i), ss[i], t), size)
    ensures contents == Sampled(tracks, ss[..i + 1], size)
  {
    forall t | 0 <= t < TOTAL_TRACKS ensures contents[t] == StoreAll(tracks[t], Levels(ss[..i + 1], t), size) {
      LevelsNext(ss, i, t);
      StoreAllAppend(tracks[t], Levels(ss[..i], t), Added(Before(ss, i), ss[i], t), size);
    }
  }

  /** The board when the card is gone. */
  function Swiped(b: Board, ss: seq<Status>, size: nat): (r: Board)
    requires BoardOk(b) && SamplesOk(ss) && size > 0
    ensures BoardOk(r)
  {
    Board(b.release, 0, Sampled(b.tracks, ss[..WhilePresent(ss)], size))
  }

  function KeyCodes(ks: seq<Key>): (r: seq<bv8>)
    ensures |r| == |ks|
  {
    seq(|ks|, i requires 0 <= i < |ks| => KeyCode(ks[i]))
  }

  lemma KeyCodesNext(ks: seq<Key>, k: Key)
    ensures KeyCodes(ks + [k]) == KeyCodes(ks) + [KeyCode(k)]
  {
  }

  lemma StoreAllOne(q: seq<bool>, x: bool, size: nat)
    requires size > 0
    ensures StoreAll(q, [], size) == q && StoreAll(q, [x], size) == Stored(q, x, size)
  {
    assert [x][..0] == [];
  }

  /** The bits of a buffer that is set up. */
  ghost function QueueOf(b: BitBuffer): (q: Option<seq<bool>>)
    reads b, b.data
  {
    if b.Valid() then Some(b.Contents()) else None
  }

  method NewBuffer(bytes: nat) returns (b: BitBuffer)
    requires bytes > 0
    ensures fresh(b) && fresh(b.data) && b.data.Length == bytes && QueueOf(b) == Some([])
  {
    b := new BitBuffer(bytes);
    b.Init();
  }

  method NewBuffers(bytes: nat) returns (t0: BitBuffer, t1: BitBuffer, t2: BitBuffer)
    requires bytes > 0
    ensures fresh({t0, t1, t2}) && fresh({t0.data, t1.data, t2.data})
    ensures t0 != t1 && t0 != t2 && t1 != t2 && t0.data != t1.data && t0.data != t2.data && t1.data != t2.data
    ensures t0.data.Length == t1.data.Length == t2.data.Length == bytes
    ensures QueueOf(t0) == QueueOf(t1) == QueueOf(t2) == Some([])
  {
    t0 := NewBuffer(bytes);
    t1 := NewBuffer(bytes);
    t2 := NewBuffer(bytes);
  }

  class Reader {
    const buffers: seq<BitBuffer>
    var isKeyReleaseReport: bool
    var currentTrack: nat
    /** The bits in the queues. */
    ghost var contents: seq<seq<bool>>

    ghost predicate Separate() {
      && |buffers| == TOTAL_TRACKS
      && buffers[0] != buffers[1] && buffers[0] != buffers[2] && buffers[1] != buffers[2]
      && buffers[0].data != buffers[1].data && buffers[0].data != buffers[2].data && buffers[1].data != buffers[2].data
      && buffers[0].data.Length == buffers[1].data.Length == buffers[2].data.Length > 0
    }

    ghost function Repr(): (r: set<object>) {
      if |buffers| == TOTAL_TRACKS
      then {buffers[0], buffers[1], buffers[2], buffers[0].data, buffers[1].data, buffers[2].data}
      else {}
    }

    ghost predicate Valid()
      reads this, Repr()
    {
      && Separate() && currentTrack <= TOTAL_TRACKS && |contents| == TOTAL_TRACKS
      && QueueOf(buffers[0]) == Some(contents[0]) && QueueOf(buffers[1]) == Some(contents[1])
      && QueueOf(buffers[2]) == Some(contents[2])
    }

    ghost function Now(): (b: Board)
      reads this
    {
      Board(isKeyReleaseReport, currentTrack, contents)
    }

    /** The number of places of each queue. */
    ghost function Size(): (n: nat)
      requires Separate()
    {
      8 * buffers[0].data.Length
    }

    /** The buffers are global and zero; nothing is being sent. */
    constructor (bytes: nat)
      requires bytes > 0
      ensures Valid() && fresh(Repr()) && Now() == Board(false, TOTAL_TRACKS, [[], [], []]) && Size() == 8 * bytes
    {
      var t0, t1, t2 := NewBuffers(bytes);
      buffers, contents := [t0, t1, t2], [[], [], []];
      isKeyReleaseReport, currentTrack := false, TOTAL_TRACKS;
    }

    /** Stores a bit in one of the queues. */
    method StoreBit(t: nat, x: bool)
      requires Valid() && t < TOTAL_TRACKS
      modifies this`contents, Repr()
      ensures Valid() && contents == old(contents)[t := Stored(old(contents)[t], x, Size())]
    {
      assert t == 0 || t == 1 || t == 2;
      buffers[t].StoreNextBit(x);
      contents := contents[t := Stored(contents[t], x, Size())];
    }

    /** Stores the data level of one track if its clock has risen. */
    method SampleTrack(t: nat, prev: Status, lcl: Status)
      requires Valid() && t < TOTAL_TRACKS && StatusOk(prev) && StatusOk(lcl)
      modifies this`contents, Repr()
      ensures Valid() && contents == old(contents)[t := StoreAll(old(contents)[t], Added(prev, lcl, t), Size())]
    {
      var dataPinLevel, clockPinLevel := lcl.data[t], lcl.clock[t];
      var clockLevelChanged := lcl.clock[t] != prev.clock[t];
      StoreAllOne(contents[t], dataPinLevel, Size());
      if clockPinLevel && clockLevelChanged {
        StoreBit(t, dataPinLevel);
      }
    }

    method SampleTracks(prev: Status, lcl: Status)
      requires Valid() && StatusOk(prev) && StatusOk(lcl)
      modifies this`contents, Repr()
      ensures Valid()
      ensures forall t :: 0 <= t < TOTAL_TRACKS ==>
                contents[t] == StoreAll(old(contents)[t], Added(prev, lcl, t), Size())
    {
      var track := 0;
      while track < TOTAL_TRACKS
        invariant 0 <= track <= TOTAL_TRACKS && Valid()
        invariant forall t :: 0 <= t < track ==> contents[t] == StoreAll(old(contents)[t], Added(prev, lcl, t), Size())
        invariant forall t :: track <= t < TOTAL_TRACKS ==> contents[t] == old(contents)[t]
      {
        SampleTrack(track, prev, lcl);
        track := track + 1;
      }
    }

    /** Sample i, the samples before it done. */
    method SampleNext(prev: Status, ss: seq<Status>, ghost tracks: seq<seq<bool>>, i: nat)
      requires Valid() && SamplesOk(ss) && i < |ss| && prev == Before(ss, i) && |tracks| == TOTAL_TRACKS
      requires contents == Sampled(tracks, ss[..i], Size())
      modifies this`contents, Repr()
      ensures Valid() && contents == Sampled(tracks, ss[..i + 1], Size())
    {
      SampleTracks(prev, ss[i]);
      SampledNext(contents, tracks, ss, Size(), i);
    }

    /** Samples until the card is gone, `ss` being what the lines show. */
    method SampleCard(ss: seq<Status>)
      requires Valid() && SamplesOk(ss)
      modifies this`contents, Repr()
      ensures Valid() && contents == Sampled(old(contents), ss[..WhilePresent(ss)], Size())
    {
      var prev, i := NO_LINES, 0;
      ghost var n, before := WhilePresent(ss), contents;
      SampledNone(before, ss, Size());
      while i < |ss| && ss[i].present
        invariant 0 <= i <= n && prev == Before(ss, i)
        invariant Valid() && contents == Sampled(before, ss[..i], Size())
      {
        assert i < n;
        SampleNext(prev, ss, before, i);
        prev, i := ss[i], i + 1;
      }
      assert i == n;
    }

    /** A card, the first track being the next to send. */
    method ReadMagstripeData(ss: seq<Status>)
      requires Valid() && SamplesOk(ss)
      modifies this, Repr()
      ensures Valid() && Now() == Swiped(old(Now()), ss, Size())
    {
      SampleCard(ss);
      currentTrack := 0;
    }

    /** The oldest bit of a track. */
    method TakeBit(t: nat) returns (x: bool)
      requires Valid() && t < TOTAL_TRACKS && contents[t] != []
      modifies this`contents, Repr()
      ensures Valid() && x == old(contents)[t][0] && contents == old(contents)[t := old(contents)[t][1..]]
    {
      assert t == 0 || t == 1 || t == 2;
      x := buffers[t].GetNextBit();
      contents := contents[t := contents[t][1..]];
    }

    /** The number of bits in a track's queue, as it is counted. */
    method Count(t: nat) returns (n: nat)
      requires Valid() && t < TOTAL_TRACKS
      ensures n == U16(|contents[t]|)
    {
      assert t == 0 || t == 1 || t == 2;
      n := buffers[t].elements;
    }

    /** A key report on the track that is being sent. */
    method SendKey() returns (keyCode: bv8)
      requires Valid() && currentTrack < TOTAL_TRACKS && !isKeyReleaseReport
      modifies this`currentTrack, this`contents, Repr()
      ensures Valid() && !isKeyReleaseReport
      ensures keyCode == KeyCode(Report(old(Now()).(release := true))) && Now() == Next(old(Now()).(release := true))
    {
      ghost var board := Now().(release := true);
      var elements := Count(currentTrack);
      if elements == 0 {
        assert Report(board) == KeyEnter && Next(board) == Now().(current := currentTrack + 1);
        keyCode := 40;
        currentTrack := currentTrack + 1;
      } else {
        assert Report(board) == KeyOf(contents[currentTrack][0]);
        assert Next(board) == Now().(tracks := contents[currentTrack := contents[currentTrack][1..]]);
        assert contents[currentTrack] != [];
        var bit := TakeBit(currentTrack);
        keyCode := if bit then 30 else 39;
      }
    }

    /** The report that the host asks for. */
    method CreateHIDReport() returns (keyCode: bv8)
      requires Valid()
      modifies this, Repr()
      ensures Valid() && keyCode == KeyCode(Report(old(Now()))) && Now() == Next(old(Now()))
    {
      isKeyReleaseReport := !isKeyReleaseReport;
      if isKeyReleaseReport || currentTrack == TOTAL_TRACKS {
        keyCode := 0;
      } else {
        keyCode := SendKey();
      }
    }

    /** The reports of n requests, without another card. */
    method SendReports(n: nat) returns (keyCodes: seq<bv8>)
      requires Valid()
      modifies this, Repr()
      ensures Valid() && keyCodes == KeyCodes(Reports(old(Now()), n)) && Now() == After(old(Now()), n)
    {
      ghost var board := Now();
      keyCodes := [];
      while |keyCodes| < n
        invariant |keyCodes| <= n && Valid() && Now() == After(board, |keyCodes|)
        invariant keyCodes == KeyCodes(Reports(board, |keyCodes|))
      {
        ReportsNext(board, |keyCodes|);
        KeyCodesNext(Reports(board, |keyCodes|), Report(Now()));
        var keyCode := CreateHIDReport();
        keyCodes := keyCodes + [keyCode];
      }
    }

    /** A card, and then n reports without another card. */
    method Swipe(ss: seq<Status>, n: nat) returns (keyCodes: seq<bv8>)
      requires Valid() && SamplesOk(ss)
      modifies this, Repr()
      ensures Valid() && keyCodes == KeyCodes(Reports(Swiped(old(Now()), ss, Size()), n))
    {
      ReadMagstripeData(ss);
      keyCodes := SendReports(n);
    }
  }

  function TrackText(bits: seq<bool>): (ks: seq<Key>) {
    seq(|bits|, i requires 0 <= i < |bits| => KeyOf(bits[i])) + [KeyEnter]
  }

  /** The bits that the sixteen-bit count of a queue speaks of: the oldest, whole 65536 of them left out. */
  function Counted(bits: seq<bool>): (r: seq<bool>)
    ensures |r| <= |bits| && (|bits| < 0x1_0000 ==> r == bits)
  {
    if |bits| < 0x1_0000 then bits else bits[..U16(|bits|)]
  }

  lemma CountedNext(bits: seq<bool>)
    requires U16(|bits|) != 0
    ensures bits != [] && U16(|bits[1..]|) == U16(|bits|) - 1 && Counted(bits) == [bits[0]] + Counted(bits[1..])
  {
    CountDown(|bits|);
  }

  lemma TextNext(x: bool, rest: seq<bool>)
    ensures TrackText([x] + rest) == [KeyOf(x)] + TrackText(rest)
  {
  }

  lemma {:induction false} TrackKeysText(bits: seq<bool>)
    ensures TrackKeys(bits) == TrackText(Counted(bits))
  {
    if U16(|bits|) == 0 {
      assert Counted(bits) == [];
    } else {
      CountedNext(bits);
      TrackKeysText(bits[1..]);
      TextNext(bits[0], Counted(bits[1..]));
    }
  }

  lemma KeysOfThree(tracks: seq<seq<bool>>)
    requires |tracks| == TOTAL_TRACKS
    ensures Keys(tracks, 0) == TrackKeys(tracks[0]) + TrackKeys(tracks[1]) + TrackKeys(tracks[2])
  {
    assert Keys(tracks, 3) == [];
    assert Keys(tracks, 2) == TrackKeys(tracks[2]);
    assert Keys(tracks, 1) == TrackKeys(tracks[1]) + TrackKeys(tracks[2]);
  }

  /**
   A card on an idle reader: the keys pressed are, track by track, the bits stored and an enter, once enough
   reports have been asked for.
   */
  lemma CardTyped(b: Board, ss: seq<Status>, size: nat, n: nat)
    requires BoardOk(b) && b.tracks == [[], [], []] && SamplesOk(ss) && size > 0
    requires var card := ss[..WhilePresent(ss)];
             n >= 2 * (|Levels(card, 0)| + |Levels(card, 1)| + |Levels(card, 2)| + TOTAL_TRACKS)
    ensures var card := ss[..WhilePresent(ss)];
            Pressed(Reports(Swiped(b, ss, size), n)) ==
              TrackText(Counted(StoreAll([], Levels(card, 0), size))) +
              TrackText(Counted(StoreAll([], Levels(card, 1), size))) +
              TrackText(Counted(StoreAll([], Levels(card, 2), size)))
  {
    var s := Swiped(b, ss, size);
    TrackKeysText(s.tracks[0]);
    TrackKeysText(s.tracks[1]);
    TrackKeysText(s.tracks[2]);
    KeysOfThree(s.tracks);
    AllKeysPressed(s, n);
  }

  /** No track has more levels than a queue has places, or than its count can tell. */
  predicate Fits(card: seq<Status>, size: nat)
    requires SamplesOk(card)
  {
    forall t :: 0 <= t < TOTAL_TRACKS ==> |Levels(card, t)| <= size && |Levels(card, t)| < 0x1_0000
  }

  /** A card that fits: the keys are the data at the rising clock edges. */
  lemma CardTypedFits(b: Board, ss: seq<Status>, size: nat, n: nat)
    requires BoardOk(b) && b.tracks == [[], [], []] && SamplesOk(ss) && size > 0
    requires Fits(ss[..WhilePresent(ss)], size)
    requires var card := ss[..WhilePresent(ss)];
             n >= 2 * (|Levels(card, 0)| + |Levels(card, 1)| + |Levels(card, 2)| + TOTAL_TRACKS)
    ensures var card := ss[..WhilePresent(ss)];
            Pressed(Reports(Swiped(b, ss, size), n)) ==
              TrackText(Levels(card, 0)) + TrackText(Levels(card, 1)) + TrackText(Levels(card, 2))
  {
    CardTyped(b, ss, size, n);
    var card := ss[..WhilePresent(ss)];
    forall t | 0 <= t < TOTAL_TRACKS ensures StoreAll([], Levels(card, t), size) == Levels(card, t) {
      StoreAllFits([], Levels(card, t), size);
      assert [] + Levels(card, t) == Levels(card, t);
    }
  }

  // ----- the bytes of a card

  /** The clock of a track is high and was low before; it is low before the first sample. */
  predicate Edge(ss: seq<Status>, t: nat, i: nat)
    requires SamplesOk(ss) && t < TOTAL_TRACKS && i < |ss|
  {
    ss[i].clock[t] && (i == 0 || !ss[i - 1].clock[t])
  }

  function Edges(ss: seq<Status>, t: nat): (places: set<nat>)
    requires SamplesOk(ss) && t < TOTAL_TRACKS
  {
    set i: nat | i < |ss| && Edge(ss, t, i)
  }

  lemma EdgesNext(ss: seq<Status>, t: nat)
    requires SamplesOk(ss) && t < TOTAL_TRACKS && ss != []
    ensures var n := |ss| - 1; Edges(ss, t) == Edges(ss[..n], t) + if Edge(ss, t, n) then {n} else {}
    ensures var n := |ss| - 1; |Edges(ss, t)| == |Edges(ss[..n], t)| + if Edge(ss, t, n) then 1 else 0
  {
    var n := |ss| - 1;
    forall i: nat | i < n ensures Edge(ss, t, i) == Edge(ss[..n], t, i) {
    }
    assert Edges(ss, t) == Edges(ss[..n], t) + if Edge(ss, t, n) then {n} else {};
  }

  predicate LevelAt(ss: seq<Status>, t: nat, i: nat)
    requires SamplesOk(ss) && t < TOTAL_TRACKS && i < |ss|
  {
    |Edges(ss[..i], t)| < |Levels(ss, t)| && Levels(ss, t)[|Edges(ss[..i], t)|] == ss[i].data[t]
  }

  lemma LevelKept(ss: seq<Status>, t: nat, i: nat)
    requires SamplesOk(ss) && t < TOTAL_TRACKS && i + 1 < |ss| && Edge(ss, t, i)
    requires Edge(ss[..|ss| - 1], t, i) ==> LevelAt(ss[..|ss| - 1], t, i)
    ensures LevelAt(ss, t, i)
  {
    assert ss[..|ss| - 1][..i] == ss[..i];
  }

  lemma LevelLast(ss: seq<Status>, t: nat)
    requires SamplesOk(ss) && t < TOTAL_TRACKS && ss != []
    requires |Levels(ss[..|ss| - 1], t)| == |Edges(ss[..|ss| - 1], t)|
    ensures |Levels(ss, t)| == |Edges(ss, t)|
    ensures Edge(ss, t, |ss| - 1) ==> LevelAt(ss, t, |ss| - 1)
  {
    EdgesNext(ss, t);
  }

  /** One level an edge, in order: at an edge with k edges before it, the k-th level is the data line. */
  lemma {:induction false} LevelsAtEdges(ss: seq<Status>, t: nat)
    requires SamplesOk(ss) && t < TOTAL_TRACKS
    ensures |Levels(ss, t)| == |Edges(ss, t)|
    ensures forall i: nat :: i < |ss| && Edge(ss, t, i) ==> LevelAt(ss, t, i)
  {
    if ss != [] {
      var n := |ss| - 1;
      LevelsAtEdges(ss[..n], t);
      LevelLast(ss, t);
      forall i: nat | i < |ss| && Edge(ss, t, i) ensures LevelAt(ss, t, i) {
        if i < n {
          LevelKept(ss, t, i);
        }
      }
    }
  }

  /** The usage codes for a track: 1 is 30, 0 is 39, and enter is 40. */
  function TrackCodes(bits: seq<bool>): (codes: seq<bv8>) {
    seq(|bits|, i requires 0 <= i < |bits| => if bits[i] then 30 else 39) + [40]
  }

  function CardCodes(card: seq<Status>): (codes: seq<bv8>)
    requires SamplesOk(card)
  {
    TrackCodes(Levels(card, 0)) + TrackCodes(Levels(card, 1)) + TrackCodes(Levels(card, 2))
  }

  lemma TextCoded(bits: seq<bool>)
    ensures KeyCodes(TrackText(bits)) == TrackCodes(bits)
  {
  }

  lemma TrackCoded(levels: seq<bool>, size: nat)
    requires |levels| <= size && |levels| < 0x1_0000 && size > 0
    ensures KeyCodes(TrackKeys(StoreAll([], levels, size))) == TrackCodes(levels)
  {
    StoreAllFits([], levels, size);
    assert [] + levels == levels;
    TrackKeysText(levels);
    TextCoded(levels);
  }

  lemma KeyCodesAppend(ks: seq<Key>, more: seq<Key>)
    ensures KeyCodes(ks + more) == KeyCodes(ks) + KeyCodes(more)
  {
  }

  /** What a card that fits leaves to be sent. */
  lemma CardRemains(b: Board, ss: seq<Status>, size: nat)
    requires BoardOk(b) && b.tracks == [[], [], []] && SamplesOk(ss) && size > 0
    requires Fits(ss[..WhilePresent(ss)], size)
    ensures KeyCodes(Remaining(Swiped(b, ss, size))) == CardCodes(ss[..WhilePresent(ss)])
  {
    var card, s := ss[..WhilePresent(ss)], Swiped(b, ss, size);
    forall t | 0 <= t < TOTAL_TRACKS ensures KeyCodes(TrackKeys(s.tracks[t])) == TrackCodes(Levels(card, t)) {
      TrackCoded(Levels(card, t), size);
    }
    KeysOfThree(s.tracks);
    KeyCodesAppend(TrackKeys(s.tracks[0]), TrackKeys(s.tracks[1]));
    KeyCodesAppend(TrackKeys(s.tracks[0]) + TrackKeys(s.tracks[1]), TrackKeys(s.tracks[2]));
  }

  /**
   The bytes of the reports behind a card that fits: a key in every other one, the codes of the card in order,
   and zero in all others.
   */
  lemma SwipeBytes(b: Board, ss: seq<Status>, size: nat, n: nat, i: nat)
    requires BoardOk(b) && b.tracks == [[], [], []] && SamplesOk(ss) && size > 0 && i < n
    requires Fits(ss[..WhilePresent(ss)], size)
    ensures var codes := CardCodes(ss[..WhilePresent(ss)]);
            KeyCodes(Reports(Swiped(b, ss, size), n))[i] ==
            if (i % 2 == 0) == b.release && i / 2 < |codes| then codes[i / 2] else 0
  {
    CardRemains(b, ss, size);
    ReportsAlternate(Swiped(b, ss, size), n, i);
  }
}
