/** The rotation-aware tail reader: a buffered reader over one open file, and a
    disk on which files grow, are truncated in place, and are replaced. */
module Tail {
  import opened Common

  const CAPACITY: nat := 65536

  // ----- the disk -----

  /** A file and everything it ever held: truncation starts a new generation,
      and the last generation is what the file holds now. */
  datatype File = File(inode: nat, gens: seq<Bytes>)

  /** All files ever created at the path, in order; the path names the newest
      one or nothing. */
  datatype Disk = Disk(files: seq<File>, path: Option<nat>)

  predicate ValidDisk(d: Disk) {
    && (forall f <- d.files :: f.gens != [])
    && (d.path.Some? ==> d.path.value == |d.files| - 1 && d.files != [])
  }

  function Now(f: File): Bytes
    requires f.gens != []
  {
    f.gens[|f.gens| - 1]
  }

  // ----- the reader -----

  /** The open file with its offset and its buffer, the inode it was opened
      under, and the count of consumed bytes. */
  datatype Reader = Reader(inode: nat, file: nat, off: nat, buf: Bytes, pos: nat)

  predicate Holds(d: Disk, r: Reader) { ValidDisk(d) && r.file < |d.files| }

  function OpenAt(d: Disk, fromStart: bool): Reader
    requires ValidDisk(d) && d.path.Some?
  {
    var f := d.files[d.path.value];
    var at := if fromStart then 0 else |Now(f)|;
    Reader(f.inode, d.path.value, at, "", at)
  }

  /** `check_rotation`: reopen at 0 when the path names another inode, or when
      its file is shorter than what was consumed. */
  function Poll(d: Disk, r: Reader): (Reader, bool)
    requires Holds(d, r)
  {
    if d.path.None? then (r, false)
    else
      var f := d.files[d.path.value];
      if f.inode != r.inode || |Now(f)| < r.pos then (OpenAt(d, true), true) else (r, false)
  }

  /** A read of the open file into an empty buffer; the system hands over at
      most `n` bytes. */
  function Refill(d: Disk, r: Reader, n: nat): Reader
    requires Holds(d, r)
  {
    var text := Now(d.files[r.file]);
    if r.buf != "" || |text| <= r.off then r
    else
      var k := Min(n, |text| - r.off);
      r.(buf := text[r.off..r.off + k], off := r.off + k)
  }

  function Eat(r: Reader, amt: nat): Reader
    requires amt <= |r.buf|
  {
    r.(buf := r.buf[amt..], pos := r.pos + amt)
  }

  // ----- runs -----

  /** Bytes `from..to` of one generation of one file. */
  datatype Piece = Piece(file: nat, gen: nat, from: nat, to: nat)

  /** Where one byte was read: an offset of a generation of a file. */
  datatype Origin = Origin(file: nat, gen: nat, off: nat)

  /** `delivered` is what the caller consumed and `origins` where each byte of it
      was read; `fillGen` is the generation that filled the buffer, and `pieces`
      is where the reader means its bytes to come from. */
  datatype State = State(disk: Disk, reader: Reader, pieces: seq<Piece>, delivered: Bytes,
                         fillGen: nat, origins: seq<Origin>)

  datatype Action =
    | Append(file: nat, bytes: Bytes)
    | Truncate(file: nat)
    | Unlink
    | Create(inode: nat)
    | Read(n: nat)
    | Check
    | Consume(amt: nat)

  /** The inode of an open file is not given to another one. */
  predicate Enabled(s: State, a: Action) {
    Holds(s.disk, s.reader) &&
    match a
    case Append(f, _) => f < |s.disk.files|
    case Truncate(f) => f < |s.disk.files|
    case Unlink => true
    case Create(inode) => inode != s.reader.inode
    case Read(n) => 1 <= n <= CAPACITY
    case Check => s.reader.buf == ""
    case Consume(amt) => amt <= |s.reader.buf|
  }

  function WithFile(d: Disk, f: nat, gens: seq<Bytes>): Disk
    requires f < |d.files|
  {
    d.(files := d.files[f := d.files[f].(gens := gens)])
  }

  function After(s: State, a: Action): State
    requires Enabled(s, a)
  {
    var d, r := s.disk, s.reader;
    match a
    case Append(f, bytes) =>
      var gens := d.files[f].gens;
      s.(disk := WithFile(d, f, gens[..|gens| - 1] + [Now(d.files[f]) + bytes]))
    case Truncate(f) => s.(disk := WithFile(d, f, d.files[f].gens + [""]))
    case Unlink => s.(disk := d.(path := None))
    case Create(inode) => s.(disk := Disk(d.files + [File(inode, [""])], Some(|d.files|)))
    case Read(n) =>
      var r' := Refill(d, r, n);
      s.(reader := r', pieces := Noticed(s),
         fillGen := if r' == r then s.fillGen else |d.files[r.file].gens| - 1)
    case Check =>
      var (r', rotated) := Poll(d, r);
      s.(reader := r', pieces := if rotated then s.pieces + [StartOf(d, r'.file)] else s.pieces)
    case Consume(amt) =>
      s.(reader := Eat(r, amt), delivered := s.delivered + r.buf[..amt], pieces := Longer(s.pieces, amt),
         origins := s.origins + Span(r.file, s.fillGen, r.pos, amt))
  }

  function Span(file: nat, gen: nat, at: nat, amt: nat): seq<Origin> {
    seq(amt, i requires 0 <= i < amt => Origin(file, gen, at + i))
  }

  function StartOf(d: Disk, f: nat): Piece
    requires ValidDisk(d) && f < |d.files|
  {
    Piece(f, |d.files[f].gens| - 1, 0, 0)
  }

  /** A reader that has read nothing yet follows a truncation without noticing. */
  function Noticed(s: State): seq<Piece>
    requires Holds(s.disk, s.reader)
  {
    if s.pieces != [] && s.reader.off == 0 && Stale(s) then s.pieces + [StartOf(s.disk, s.reader.file)] else s.pieces
  }

  function Longer(pieces: seq<Piece>, amt: nat): seq<Piece> {
    if pieces == [] then [] else
      var last := pieces[|pieces| - 1];
      pieces[..|pieces| - 1] + [last.(to := last.to + amt)]
  }

  /** The open file was truncated after the reader's last piece. */
  predicate Stale(s: State)
    requires Holds(s.disk, s.reader) && s.pieces != []
  {
    s.pieces[|s.pieces| - 1].gen + 1 < |s.disk.files[s.reader.file].gens|
  }

  /** A truncation nobody polled for, the buffer is used up, and the file has grown
      past the offset again: a read goes on in the middle of the new generation. */
  predicate Fooled(s: State) {
    Holds(s.disk, s.reader) && s.reader.buf == "" && s.pieces != [] && Stale(s)
    && 0 < s.reader.off < |Now(s.disk.files[s.reader.file])|
  }

  predicate Possible(s: State, actions: seq<Action>)
    decreases |actions|
  {
    actions != [] ==> Enabled(s, actions[0]) && Possible(After(s, actions[0]), actions[1..])
  }

  /** Some byte of a fooled read is consumed; `pending` says that the buffer holds
      such bytes. */
  predicate ConsumesFooled(s: State, actions: seq<Action>, pending: bool)
    requires Possible(s, actions)
    decreases |actions|
  {
    actions != [] &&
    var a := actions[0];
    (a.Consume? && a.amt > 0 && pending)
    || ConsumesFooled(After(s, a), actions[1..], pending || (a.Read? && Fooled(s)))
  }

  function Run(s: State, actions: seq<Action>): State
    requires Possible(s, actions)
    decreases |actions|
  {
    if actions == [] then s else Run(After(s, actions[0]), actions[1..])
  }

  function Opened(d: Disk, fromStart: bool): State
    requires ValidDisk(d) && d.path.Some?
  {
    var r := OpenAt(d, fromStart);
    State(d, r, [Piece(r.file, |d.files[r.file].gens| - 1, r.pos, r.pos)], "", 0, [])
  }

  // ----- what a run delivers -----

  predicate Within(d: Disk, p: Piece) {
    p.file < |d.files| && p.gen < |d.files[p.file].gens| && p.from <= p.to <= |d.files[p.file].gens[p.gen]|
  }

  function PieceText(d: Disk, p: Piece): Bytes
    requires Within(d, p)
  {
    d.files[p.file].gens[p.gen][p.from..p.to]
  }

  function Text(d: Disk, pieces: seq<Piece>): Bytes
    requires forall p <- pieces :: Within(d, p)
  {
    if pieces == [] then ""
    else Text(d, pieces[..|pieces| - 1]) + PieceText(d, pieces[|pieces| - 1])
  }

  predicate Newer(p: Piece, q: Piece) { p.file < q.file || (p.file == q.file && p.gen < q.gen) }

  /** Contiguous pieces of ever newer generations, all but the first from the
      beginning of theirs. */
  predicate Chain(d: Disk, pieces: seq<Piece>, start: nat) {
    && pieces != [] && pieces[0].from == start
    && (forall p <- pieces :: Within(d, p))
    && (forall i | 1 <= i < |pieces| :: pieces[i].from == 0 && Newer(pieces[i - 1], pieces[i]))
  }

  /** The reader stands at the end of a piece, and its buffer holds the bytes
      that follow. */
  predicate Follows(d: Disk, r: Reader, p: Piece) {
    Within(d, p) && p.file == r.file && p.to == r.pos && r.pos + |r.buf| == r.off
    && var g := d.files[p.file].gens[p.gen];
       r.off <= |g| && r.buf == g[r.pos..r.off]
  }

  predicate AtLastPiece(s: State) { s.pieces != [] && Follows(s.disk, s.reader, s.pieces[|s.pieces| - 1]) }

  predicate KnowsInode(s: State)
    requires Holds(s.disk, s.reader)
  {
    s.disk.files[s.reader.file].inode == s.reader.inode
    && (s.disk.path.Some? && s.disk.path.value != s.reader.file
        ==> s.disk.files[s.disk.path.value].inode != s.reader.inode)
  }

  predicate Inv(s: State, start: nat) {
    Holds(s.disk, s.reader) && Chain(s.disk, s.pieces, start) && AtLastPiece(s) && KnowsInode(s)
    && s.delivered == Text(s.disk, s.pieces)
  }

  /** Files only appear, generations only appear, and generations only grow. */
  predicate Extends(d: Disk, d': Disk) {
    |d.files| <= |d'.files|
    && forall f | 0 <= f < |d.files| ::
         d.files[f].inode == d'.files[f].inode && |d.files[f].gens| <= |d'.files[f].gens|
         && forall g | 0 <= g < |d.files[f].gens| :: d.files[f].gens[g] <= d'.files[f].gens[g]
  }

  lemma PieceStable(d: Disk, d': Disk, p: Piece)
    requires Extends(d, d') && Within(d, p)
    ensures Within(d', p) && PieceText(d, p) == PieceText(d', p)
  {
    assert d.files[p.file].gens[p.gen] <= d'.files[p.file].gens[p.gen];
  }

  lemma {:induction false} TextStable(d: Disk, d': Disk, pieces: seq<Piece>)
    requires Extends(d, d') && forall p <- pieces :: Within(d, p)
    ensures (forall p <- pieces :: Within(d', p)) && Text(d, pieces) == Text(d', pieces)
  {
    if pieces != [] {
      TextStable(d, d', pieces[..|pieces| - 1]);
      PieceStable(d, d', pieces[|pieces| - 1]);
      forall p | p in pieces ensures Within(d', p) { PieceStable(d, d', p); }
    }
  }

  lemma EnvironmentExtends(s: State, a: Action)
    requires Enabled(s, a) && (a.Append? || a.Truncate? || a.Unlink? || a.Create?)
    ensures var s' := After(s, a);
            ValidDisk(s'.disk) && Extends(s.disk, s'.disk) && s' == s.(disk := s'.disk)
            && (KnowsInode(s) ==> Holds(s'.disk, s'.reader) && KnowsInode(s'))
  {
  }

  lemma EnvironmentKeeps(s: State, a: Action, start: nat)
    requires Inv(s, start) && Enabled(s, a) && (a.Append? || a.Truncate? || a.Unlink? || a.Create?)
    ensures Inv(After(s, a), start)
  {
    hide After, KnowsInode, Text;
    EnvironmentExtends(s, a);
    var s' := After(s, a);
    TextStable(s.disk, s'.disk, s.pieces);
    var p := s.pieces[|s.pieces| - 1];
    assert s.disk.files[p.file].gens[p.gen] <= s'.disk.files[p.file].gens[p.gen];
  }

  lemma TextSnoc(d: Disk, init: seq<Piece>, p: Piece)
    requires (forall q <- init :: Within(d, q)) && Within(d, p)
    ensures forall q <- init + [p] :: Within(d, q)
    ensures Text(d, init + [p]) == Text(d, init) + PieceText(d, p)
  {
    hide PieceText, Within;
    assert (init + [p])[..|init|] == init;
  }

  lemma PushPiece(d: Disk, pieces: seq<Piece>, start: nat, f: nat)
    requires ValidDisk(d) && f < |d.files| && Chain(d, pieces, start)
    requires Newer(pieces[|pieces| - 1], StartOf(d, f))
    ensures var next := pieces + [StartOf(d, f)];
            Chain(d, next, start) && Text(d, next) == Text(d, pieces)
  {
    hide Text;
    TextSnoc(d, pieces, StartOf(d, f));
  }

  lemma RefillFollows(d: Disk, r: Reader, p: Piece, n: nat)
    requires Holds(d, r) && Follows(d, r, p)
    requires p.gen + 1 == |d.files[r.file].gens| || |Now(d.files[r.file])| <= r.off || r.buf != ""
    ensures Follows(d, Refill(d, r, n), p)
    ensures var r' := Refill(d, r, n); r'.file == r.file && r'.inode == r.inode
  {
  }

  lemma StartFollows(d: Disk, r: Reader, p: Piece)
    requires Holds(d, r) && Follows(d, r, p) && r.off == 0
    ensures Follows(d, r, StartOf(d, r.file)) && Within(d, StartOf(d, r.file))
  {
  }

  lemma ReadKeeps(s: State, n: nat, start: nat)
    requires Inv(s, start) && !Fooled(s) && Enabled(s, Read(n))
    ensures Inv(After(s, Read(n)), start)
  {
    hide Text, Chain, Follows, Refill;
    var p := s.pieces[|s.pieces| - 1];
    FollowsFacts(s.disk, s.reader, p);
    if s.reader.off == 0 && Stale(s) {
      StartFollows(s.disk, s.reader, p);
      PushPiece(s.disk, s.pieces, start, s.reader.file);
      RefillFollows(s.disk, s.reader, StartOf(s.disk, s.reader.file), n);
    } else {
      RefillFollows(s.disk, s.reader, p, n);
    }
  }

  lemma FollowsFacts(d: Disk, r: Reader, p: Piece)
    requires Follows(d, r, p)
    ensures Within(d, p) && p.file == r.file && p.to == r.pos
  {
  }

  /** What a rotation check reopens is newer than all that was read. */
  lemma RotationIsNewer(s: State, start: nat)
    requires Inv(s, start) && Poll(s.disk, s.reader).1
    ensures s.disk.path.Some? && Poll(s.disk, s.reader).0 == OpenAt(s.disk, true)
    ensures Newer(s.pieces[|s.pieces| - 1], StartOf(s.disk, s.disk.path.value))
  {
    hide Text;
  }

  lemma CheckKeeps(s: State, start: nat)
    requires Inv(s, start) && Enabled(s, Check)
    ensures Inv(After(s, Check), start)
  {
    hide Text;
    if Poll(s.disk, s.reader).1 {
      RotationIsNewer(s, start);
      PushPiece(s.disk, s.pieces, start, s.disk.path.value);
    }
  }

  lemma LongerChain(d: Disk, pieces: seq<Piece>, amt: nat, start: nat)
    requires Chain(d, pieces, start) && Within(d, pieces[|pieces| - 1])
    requires var p := pieces[|pieces| - 1]; p.to + amt <= |d.files[p.file].gens[p.gen]|
    ensures Chain(d, Longer(pieces, amt), start)
  {
    var n, next := |pieces| - 1, Longer(pieces, amt);
    forall i | 0 <= i < |next|
      ensures next[i].from == pieces[i].from && next[i].file == pieces[i].file && next[i].gen == pieces[i].gen
              && Within(d, next[i])
    {
      assert pieces[i] in pieces;
    }
  }

  lemma LongerText(d: Disk, pieces: seq<Piece>, amt: nat)
    requires pieces != [] && forall p <- pieces :: Within(d, p)
    requires forall p <- Longer(pieces, amt) :: Within(d, p)
    ensures var p := pieces[|pieces| - 1];
            Within(d, p) && p.to + amt <= |d.files[p.file].gens[p.gen]|
            && Text(d, Longer(pieces, amt)) == Text(d, pieces) + d.files[p.file].gens[p.gen][p.to..p.to + amt]
  {
    hide Text;
    var n := |pieces| - 1;
    var init, p, p' := pieces[..n], pieces[n], Longer(pieces, amt)[n];
    assert pieces == init + [p] && Longer(pieces, amt) == init + [p'];
    assert p in pieces && p' in Longer(pieces, amt);
    assert forall q <- init :: q in pieces;
    TextSnoc(d, init, p);
    TextSnoc(d, init, p');
    SplitSlice(d.files[p.file].gens[p.gen], p.from, p.to, p'.to);
  }

  lemma SplitSlice(text: Bytes, i: nat, j: nat, k: nat)
    requires i <= j <= k <= |text|
    ensures text[i..k] == text[i..j] + text[j..k]
  {
  }

  lemma ConsumeKeeps(s: State, amt: nat, start: nat)
    requires Inv(s, start) && Enabled(s, Consume(amt))
    ensures Inv(After(s, Consume(amt)), start)
  {
    hide Text;
    LongerChain(s.disk, s.pieces, amt, start);
    LongerText(s.disk, s.pieces, amt);
  }

  lemma StepKeeps(s: State, a: Action, start: nat)
    requires Inv(s, start) && Enabled(s, a) && !(a.Read? && Fooled(s))
    ensures Inv(After(s, a), start)
  {
    hide Inv, Fooled, Enabled, After;
    match a
    case Read(n) => ReadKeeps(s, n, start);
    case Check => CheckKeeps(s, start);
    case Consume(amt) => ConsumeKeeps(s, amt, start);
    case _ => EnvironmentKeeps(s, a, start);
  }

  // ----- where each byte was read -----

  predicate NewerThan(p: Origin, q: Origin) { p.file < q.file || (p.file == q.file && p.gen < q.gen) }

  /** From position `p` a chain goes on at `p`, or at the beginning of a newer
      generation. */
  predicate Reaches(p: Origin, q: Origin) { q == p || (q.off == 0 && NewerThan(p, q)) }

  function Next(o: Origin): Origin { o.(off := o.off + 1) }

  predicate Chained(p: Origin, origins: seq<Origin>)
    decreases |origins|
  {
    origins != [] ==> Reaches(p, origins[0]) && Chained(Next(origins[0]), origins[1..])
  }

  function End(p: Origin, origins: seq<Origin>): Origin {
    if origins == [] then p else Next(origins[|origins| - 1])
  }

  lemma {:induction false} ChainedConcat(p: Origin, a: seq<Origin>, b: seq<Origin>)
    ensures Chained(p, a + b) <==> Chained(p, a) && Chained(End(p, a), b)
    ensures End(p, a + b) == End(End(p, a), b)
    decreases |a|
  {
    if a == [] {
      assert a + b == b;
    } else {
      assert (a + b)[1..] == a[1..] + b;
      ChainedConcat(Next(a[0]), a[1..], b);
    }
  }

  lemma {:induction false} SpanChained(file: nat, gen: nat, at: nat, amt: nat)
    ensures Chained(Origin(file, gen, at), Span(file, gen, at, amt))
    ensures End(Origin(file, gen, at), Span(file, gen, at, amt)) == Origin(file, gen, at + amt)
    decreases amt
  {
    if amt > 0 {
      SpanChained(file, gen, at + 1, amt - 1);
      assert Span(file, gen, at, amt)[1..] == Span(file, gen, at + 1, amt - 1);
    }
  }

  predicate Tells(d: Disk, o: Origin, c: char) {
    o.file < |d.files| && o.gen < |d.files[o.file].gens| && o.off < |d.files[o.file].gens[o.gen]|
    && d.files[o.file].gens[o.gen][o.off] == c
  }

  predicate Buffered(d: Disk, r: Reader, gen: nat) {
    Holds(d, r) && r.pos + |r.buf| == r.off
    && (r.buf != "" ==>
          gen < |d.files[r.file].gens| && r.off <= |d.files[r.file].gens[gen]|
          && r.buf == d.files[r.file].gens[gen][r.pos..r.off])
  }

  /** Every delivered byte is the one its origin names. */
  predicate Honest(s: State) {
    Buffered(s.disk, s.reader, s.fillGen) && |s.origins| == |s.delivered|
    && forall i | 0 <= i < |s.origins| :: Tells(s.disk, s.origins[i], s.delivered[i])
  }

  lemma TellsStable(d: Disk, d': Disk, o: Origin, c: char)
    requires Extends(d, d') && Tells(d, o, c)
    ensures Tells(d', o, c)
  {
    assert d.files[o.file].gens[o.gen] <= d'.files[o.file].gens[o.gen];
  }

  lemma HonestEnvironment(s: State, a: Action)
    requires Honest(s) && Enabled(s, a) && (a.Append? || a.Truncate? || a.Unlink? || a.Create?)
    ensures Honest(After(s, a))
  {
    hide After, Tells;
    EnvironmentExtends(s, a);
    var s' := After(s, a);
    forall i | 0 <= i < |s.origins| ensures Tells(s'.disk, s.origins[i], s.delivered[i]) {
      TellsStable(s.disk, s'.disk, s.origins[i], s.delivered[i]);
    }
    if s.reader.buf != "" {
      assert s.disk.files[s.reader.file].gens[s.fillGen] <= s'.disk.files[s.reader.file].gens[s.fillGen];
    }
  }

  lemma HonestConsume(s: State, amt: nat)
    requires Honest(s) && Enabled(s, Consume(amt))
    ensures Honest(After(s, Consume(amt)))
  {
    var s' := After(s, Consume(amt));
    var n := |s.origins|;
    forall i | 0 <= i < |s'.origins| ensures Tells(s'.disk, s'.origins[i], s'.delivered[i]) {
      if i >= n {
        assert s'.delivered[i] == s.reader.buf[i - n];
      }
    }
  }

  /** Whatever happens, the origins tell the truth about the delivered bytes. */
  lemma HonestStep(s: State, a: Action)
    requires Honest(s) && Enabled(s, a)
    ensures Honest(After(s, a))
  {
    match a
    case Read(n) => HonestRead(s, n);
    case Check =>
    case Consume(amt) => HonestConsume(s, amt);
    case _ => HonestEnvironment(s, a);
  }

  lemma HonestRead(s: State, n: nat)
    requires Honest(s) && Enabled(s, Read(n))
    ensures Honest(After(s, Read(n)))
  {
    hide Tells;
  }

  /** As long as no fooled byte is consumed: the invariant of the pieces, origins
      in a chain that leads to the end of the last piece, and a buffer filled
      from its generation. */
  predicate Sound(s: State, start: nat, p: Origin) {
    Inv(s, start) && Chained(p, s.origins)
    && var q := s.pieces[|s.pieces| - 1];
       Reaches(End(p, s.origins), Origin(q.file, q.gen, q.to)) && (s.reader.buf != "" ==> s.fillGen == q.gen)
  }

  /** Fooled bytes in the buffer: the chain does not go on with them. */
  predicate Pending(s: State, start: nat, p: Origin) {
    Holds(s.disk, s.reader) && s.reader.buf != "" && s.reader.off > 0
    && Chain(s.disk, s.pieces, start) && s.delivered == Text(s.disk, s.pieces) && Chained(p, s.origins)
    && !Reaches(End(p, s.origins), Origin(s.reader.file, s.fillGen, s.reader.pos))
  }

  lemma ReachesNewer(p: Origin, q: Origin, r: Origin)
    requires Reaches(p, q) && NewerThan(q, r) && r.off == 0
    ensures Reaches(p, r)
  {
  }

  lemma SoundConsume(s: State, amt: nat, start: nat, p: Origin)
    requires Sound(s, start, p) && Enabled(s, Consume(amt))
    ensures Sound(After(s, Consume(amt)), start, p)
  {
    hide Inv, Chained, End, Span;
    ConsumeKeeps(s, amt, start);
    LastPiece(s, start);
    var r, q := s.reader, s.pieces[|s.pieces| - 1];
    var here := Origin(q.file, q.gen, q.to);
    ChainedConcat(p, s.origins, Span(r.file, s.fillGen, r.pos, amt));
    SpanChained(r.file, s.fillGen, r.pos, amt);
    if amt == 0 {
      assert Span(r.file, s.fillGen, r.pos, 0) == [] by { EmptySpan(r.file, s.fillGen, r.pos); }
      assert s.origins + [] == s.origins;
    } else {
      SpanFrom(End(p, s.origins), r.file, q.gen, r.pos, amt);
    }
  }

  lemma EmptySpan(file: nat, gen: nat, at: nat)
    ensures Span(file, gen, at, 0) == []
  {
  }

  lemma SpanFrom(p: Origin, file: nat, gen: nat, at: nat, amt: nat)
    requires amt > 0
    ensures Chained(p, Span(file, gen, at, amt)) <==> Reaches(p, Origin(file, gen, at))
    ensures End(p, Span(file, gen, at, amt)) == Origin(file, gen, at + amt)
  {
    hide Reaches;
    SpanChained(file, gen, at + 1, amt - 1);
    assert Span(file, gen, at, amt)[1..] == Span(file, gen, at + 1, amt - 1);
    assert Span(file, gen, at, amt)[0] == Origin(file, gen, at);
  }

  lemma LastPiece(s: State, start: nat)
    requires Inv(s, start)
    ensures Holds(s.disk, s.reader) && s.pieces != []
    ensures var r, q := s.reader, s.pieces[|s.pieces| - 1];
            q.file == r.file && q.to == r.pos && r.pos + |r.buf| == r.off && q.gen < |s.disk.files[r.file].gens|
    ensures Chain(s.disk, s.pieces, start) && s.delivered == Text(s.disk, s.pieces)
  {
    hide Text;
  }

  lemma SoundRead(s: State, n: nat, start: nat, p: Origin)
    requires Sound(s, start, p) && Enabled(s, Read(n)) && !Fooled(s)
    ensures Sound(After(s, Read(n)), start, p)
  {
    hide Inv, Chained, End;
    ReadKeeps(s, n, start);
    LastPiece(s, start);
    var q := s.pieces[|s.pieces| - 1];
    if s.reader.off == 0 && Stale(s) {
      var q' := StartOf(s.disk, s.reader.file);
      ReachesNewer(End(p, s.origins), Origin(q.file, q.gen, q.to), Origin(q'.file, q'.gen, 0));
    }
  }

  lemma SoundCheck(s: State, start: nat, p: Origin)
    requires Sound(s, start, p) && Enabled(s, Check)
    ensures Sound(After(s, Check), start, p)
  {
    hide Inv, Chained, End, Poll;
    CheckKeeps(s, start);
    LastPiece(s, start);
    if Poll(s.disk, s.reader).1 {
      RotationIsNewer(s, start);
      var q, q' := s.pieces[|s.pieces| - 1], StartOf(s.disk, s.disk.path.value);
      ReachesNewer(End(p, s.origins), Origin(q.file, q.gen, q.to), Origin(q'.file, q'.gen, 0));
    } else {
      NoRotationStays(s.disk, s.reader);
    }
  }

  lemma NoRotationStays(d: Disk, r: Reader)
    requires Holds(d, r) && !Poll(d, r).1
    ensures Poll(d, r).0 == r
  {
  }

  lemma SoundEnvironment(s: State, a: Action, start: nat, p: Origin)
    requires Sound(s, start, p) && Enabled(s, a) && (a.Append? || a.Truncate? || a.Unlink? || a.Create?)
    ensures Sound(After(s, a), start, p)
  {
    hide Inv, After, Chained, End;
    EnvironmentKeeps(s, a, start);
    EnvironmentExtends(s, a);
  }

  lemma SoundStep(s: State, a: Action, start: nat, p: Origin)
    requires Sound(s, start, p) && Enabled(s, a) && !(a.Read? && Fooled(s))
    ensures Sound(After(s, a), start, p)
  {
    hide Sound, Fooled, After;
    match a
    case Read(n) => SoundRead(s, n, start, p);
    case Check => SoundCheck(s, start, p);
    case Consume(amt) => SoundConsume(s, amt, start, p);
    case _ => SoundEnvironment(s, a, start, p);
  }

  /** A fooled read fills the buffer with bytes from the middle of a newer
      generation, with which no chain goes on. */
  lemma FooledReadSkips(s: State, n: nat, start: nat, p: Origin)
    requires Sound(s, start, p) && Fooled(s) && Enabled(s, Read(n))
    ensures var s' := After(s, Read(n));
            Pending(s', start, p) && s'.reader.buf != "" && s'.reader.pos == s.reader.off > 0
            && s'.fillGen == |s.disk.files[s.reader.file].gens| - 1 > s.pieces[|s.pieces| - 1].gen
  {
    hide Inv, Chained, End, Chain, Text;
    LastPiece(s, start);
  }

  lemma PendingStep(s: State, a: Action, start: nat, p: Origin)
    requires Pending(s, start, p) && Enabled(s, a) && !(a.Consume? && a.amt > 0)
    ensures Pending(After(s, a), start, p)
  {
    hide Chain, Text, Chained, End, Reaches, Span;
    match a
    case Read(n) =>
    case Check =>
    case Consume(amt) =>
      assert s.pieces != [] && s.pieces[..|s.pieces| - 1] + [s.pieces[|s.pieces| - 1]] == s.pieces by {
        ChainNotEmpty(s.disk, s.pieces, start);
      }
      EmptySpan(s.reader.file, s.fillGen, s.reader.pos);
      assert s.origins + [] == s.origins && s.delivered + s.reader.buf[..0] == s.delivered;
    case _ => PendingEnvironment(s, a, start, p);
  }

  lemma ChainNotEmpty(d: Disk, pieces: seq<Piece>, start: nat)
    requires Chain(d, pieces, start)
    ensures pieces != []
  {
  }

  lemma PendingEnvironment(s: State, a: Action, start: nat, p: Origin)
    requires Pending(s, start, p) && Enabled(s, a) && (a.Append? || a.Truncate? || a.Unlink? || a.Create?)
    ensures Pending(After(s, a), start, p)
  {
    hide After, Text, Chained, End, Reaches;
    EnvironmentExtends(s, a);
    TextStable(s.disk, After(s, a).disk, s.pieces);
  }

  lemma PendingConsumed(s: State, amt: nat, start: nat, p: Origin)
    requires Pending(s, start, p) && Enabled(s, Consume(amt)) && amt > 0
    ensures !Chained(p, After(s, Consume(amt)).origins)
  {
    hide Chain, Text, Chained, End, Reaches, Span;
    ChainedConcat(p, s.origins, Span(s.reader.file, s.fillGen, s.reader.pos, amt));
    SpanFrom(End(p, s.origins), s.reader.file, s.fillGen, s.reader.pos, amt);
  }

  lemma {:induction false} RunHonest(s: State, actions: seq<Action>)
    requires Honest(s) && Possible(s, actions)
    ensures Honest(Run(s, actions)) && s.origins <= Run(s, actions).origins
    decreases |actions|
  {
    hide Honest, Enabled, Span;
    if actions != [] {
      HonestStep(s, actions[0]);
      RunHonest(After(s, actions[0]), actions[1..]);
    }
  }

  /** A broken chain is not mended. */
  lemma BrokenStays(s: State, actions: seq<Action>, p: Origin)
    requires Honest(s) && Possible(s, actions) && !Chained(p, s.origins)
    ensures !Chained(p, Run(s, actions).origins)
  {
    hide Honest, Possible, Run, Chained;
    RunHonest(s, actions);
    var t := Run(s, actions).origins;
    assert t == s.origins + t[|s.origins|..];
    ChainedConcat(p, s.origins, t[|s.origins|..]);
  }

  lemma {:induction false} RunTraced(s: State, actions: seq<Action>, pending: bool, start: nat, p: Origin)
    requires Honest(s) && Possible(s, actions) && if pending then Pending(s, start, p) else Sound(s, start, p)
    ensures var t := Run(s, actions);
            if ConsumesFooled(s, actions, pending) then !Chained(p, t.origins)
            else Chained(p, t.origins) && Chain(t.disk, t.pieces, start) && t.delivered == Text(t.disk, t.pieces)
    decreases |actions|
  {
    hide Honest, Fooled, Enabled, After, Inv, Chain, Chained, Text, Reaches, End;
    if actions == [] {
      if !pending { LastPiece(s, start); }
    } else {
      var a := actions[0];
      HonestStep(s, a);
      if pending {
        if a.Consume? && a.amt > 0 {
          PendingConsumed(s, a.amt, start, p);
          BrokenStays(After(s, a), actions[1..], p);
        } else {
          PendingStep(s, a, start, p);
          RunTraced(After(s, a), actions[1..], true, start, p);
        }
      } else if a.Read? && Fooled(s) {
        FooledReadSkips(s, a.n, start, p);
        RunTraced(After(s, a), actions[1..], true, start, p);
      } else {
        SoundStep(s, a, start, p);
        RunTraced(After(s, a), actions[1..], false, start, p);
      }
    }
  }

  function OpenOrigin(d: Disk, fromStart: bool): Origin
    requires ValidDisk(d) && d.path.Some?
  {
    var r := OpenAt(d, fromStart);
    Origin(r.file, |d.files[r.file].gens| - 1, r.pos)
  }

  lemma OpenedSound(d: Disk, fromStart: bool)
    requires ValidDisk(d) && d.path.Some?
    ensures Honest(Opened(d, fromStart))
    ensures Sound(Opened(d, fromStart), OpenAt(d, fromStart).pos, OpenOrigin(d, fromStart))
  {
    var s := Opened(d, fromStart);
    assert s.pieces[..0] == [];
    assert Text(s.disk, s.pieces) == "" + PieceText(s.disk, s.pieces[0]);
  }

  /** In every interleaving of growth, truncation, replacement and reads in which
      no byte of a fooled read is consumed, the consumed bytes are contiguous
      pieces of ever newer generations: the first from the offset the file was
      opened at, the others from 0. */
  lemma DeliversPieces(d: Disk, fromStart: bool, actions: seq<Action>)
    requires ValidDisk(d) && d.path.Some? && Possible(Opened(d, fromStart), actions)
    requires !ConsumesFooled(Opened(d, fromStart), actions, false)
    ensures var s := Run(Opened(d, fromStart), actions);
            Chain(s.disk, s.pieces, OpenAt(d, fromStart).pos) && s.delivered == Text(s.disk, s.pieces)
  {
    hide *;
    OpenedSound(d, fromStart);
    RunTraced(Opened(d, fromStart), actions, false, OpenAt(d, fromStart).pos, OpenOrigin(d, fromStart));
  }

  /** In every run each delivered byte has a true origin, and the origins are such
      a chain exactly when no byte of a fooled read was consumed. */
  lemma OriginsChainedIff(d: Disk, fromStart: bool, actions: seq<Action>)
    requires ValidDisk(d) && d.path.Some? && Possible(Opened(d, fromStart), actions)
    ensures var s := Run(Opened(d, fromStart), actions);
            |s.origins| == |s.delivered|
            && (forall i | 0 <= i < |s.origins| :: Tells(s.disk, s.origins[i], s.delivered[i]))
            && (Chained(OpenOrigin(d, fromStart), s.origins)
                <==> !ConsumesFooled(Opened(d, fromStart), actions, false))
  {
    hide OpenAt, Opened, OpenOrigin, Possible, Run, Chained, Chain, Text, Sound, Tells, ConsumesFooled;
    OpenedSound(d, fromStart);
    RunTraced(Opened(d, fromStart), actions, false, OpenAt(d, fromStart).pos, OpenOrigin(d, fromStart));
    RunHonest(Opened(d, fromStart), actions);
  }

  const READ_AB := State(Disk([File(1, ["ab"])], Some(0)), Reader(1, 0, 2, "", 2), [Piece(0, 0, 0, 2)], "ab",
                       0, [Origin(0, 0, 0), Origin(0, 0, 1)])
  const REGROWN := Disk([File(1, ["ab", "xyz"])], Some(0))

  /** Read "ab"; the file is truncated and "xyz" is written; the next read gives
      "z", and "abz" is no chain of pieces. */
  lemma RegrowthWitness(pieces: seq<Piece>)
    ensures Inv(READ_AB, 0) && Enabled(READ_AB, Truncate(0))
    ensures var s1 := READ_AB.(disk := REGROWN);
            After(After(READ_AB, Truncate(0)), Append(0, "xyz")) == s1 && Fooled(s1)
            && After(After(s1, Read(8)), Consume(1)).delivered == "abz"
    ensures Chain(REGROWN, pieces, 0) ==> Text(REGROWN, pieces) != "abz"
  {
    hide Text, Chain;
    AfterAb();
    RegrownRun();
    if Chain(REGROWN, pieces, 0) {
      TwoGenerations(pieces);
    }
  }

  lemma RegrownRun()
    ensures Enabled(READ_AB, Truncate(0))
    ensures var s1 := READ_AB.(disk := REGROWN);
            After(After(READ_AB, Truncate(0)), Append(0, "xyz")) == s1 && Fooled(s1)
            && After(After(s1, Read(8)), Consume(1)).delivered == "abz"
  {
    var cut := READ_AB.(disk := Disk([File(1, ["ab", ""])], Some(0)));
    assert ["ab"] + [""] == ["ab", ""];
    assert READ_AB.disk.files[0 := File(1, ["ab", ""])] == cut.disk.files;
    assert "" + "xyz" == "xyz";
    assert ["ab", ""][..1] + ["" + "xyz"] == ["ab", "xyz"];
    assert cut.disk.files[0 := File(1, ["ab", "xyz"])] == REGROWN.files;
    var s1 := READ_AB.(disk := REGROWN);
    var s2 := After(s1, Read(8));
    assert s2.reader.buf == "z";
    assert "ab" + "z"[..1] == "abz";
  }

  lemma AfterAb()
    ensures Inv(READ_AB, 0)
  {
    OnePiece(READ_AB.disk, READ_AB.pieces);
  }

  lemma TwoGenerations(pieces: seq<Piece>)
    requires Chain(REGROWN, pieces, 0)
    ensures Text(REGROWN, pieces) != "abz"
  {
    var d := REGROWN;
    var p := pieces[0];
    assert p in pieces;
    if |pieces| == 1 {
      OnePiece(d, pieces);
      if p.gen == 1 && p.to > 0 {
        assert "xyz"[..p.to][0] == 'x';
      }
    } else {
      assert pieces[1] in pieces;
      AtMostTwo(pieces);
      OnePiece(d, pieces[..1]);
      var first, second := "ab"[..p.to], "xyz"[..pieces[1].to];
      assert Text(d, pieces) == first + second;
      if second != "" {
        assert (first + second)[p.to] == 'x';
      }
    }
  }

  lemma AtMostTwo(pieces: seq<Piece>)
    requires Chain(REGROWN, pieces, 0) && |pieces| >= 2
    ensures |pieces| == 2 && pieces[0].gen == 0 && pieces[1].gen == 1
  {
    assert pieces[0] in pieces && pieces[1] in pieces;
    assert Newer(pieces[0], pieces[1]);
    if |pieces| > 2 {
      ThirdIsNewer(REGROWN, pieces, 0);
    }
  }

  lemma ThirdIsNewer(d: Disk, pieces: seq<Piece>, start: nat)
    requires Chain(d, pieces, start) && |pieces| > 2
    ensures forall i | 0 <= i < 3 :: Within(d, pieces[i])
    ensures pieces[0].file <= pieces[1].file <= pieces[2].file
    ensures pieces[0].file == pieces[2].file ==> pieces[2].gen >= 2 + pieces[0].gen
  {
    assert forall i | 0 <= i < 3 :: pieces[i] in pieces;
    assert Newer(pieces[1], pieces[2]) && Newer(pieces[0], pieces[1]);
  }

  lemma OnePiece(d: Disk, pieces: seq<Piece>)
    requires |pieces| == 1 && Within(d, pieces[0])
    ensures Text(d, pieces) == PieceText(d, pieces[0])
  {
    assert pieces[..0] == [];
  }

  // ----- growth alone -----

  predicate GrowthOrRead(a: Action) { a.Append? || a.Read? || a.Check? || a.Consume? }

  /** On the newest generation of the file under the path; of it everything from
      `from` on that was consumed came after `before`. */
  predicate Following(s: State, start: nat, before: Bytes, from: nat) {
    Inv(s, start) && !Stale(s) && s.disk.path == Some(s.reader.file)
    && from <= s.reader.pos && s.delivered == before + Now(s.disk.files[s.reader.file])[from..s.reader.pos]
  }

  lemma NoRotation(s: State, start: nat, before: Bytes, from: nat)
    requires Following(s, start, before, from)
    ensures !Fooled(s) && Poll(s.disk, s.reader) == (s.reader, false) && Noticed(s) == s.pieces
    ensures var text := Now(s.disk.files[s.reader.file]);
            s.reader.pos + |s.reader.buf| == s.reader.off <= |text| && s.reader.buf == text[s.reader.pos..s.reader.off]
  {
    hide Text;
  }

  lemma SliceGrows(text: Bytes, more: Bytes, from: nat, pos: nat)
    requires from <= pos <= |text|
    ensures (text + more)[from..pos] == text[from..pos]
  {
  }

  lemma SliceTakes(text: Bytes, before: Bytes, from: nat, pos: nat, amt: nat)
    requires from <= pos && pos + amt <= |text|
    ensures before + text[from..pos] + text[pos..pos + amt] == before + text[from..pos + amt]
  {
  }

  lemma GrowthStep(s: State, a: Action, start: nat, before: Bytes, from: nat)
    requires Following(s, start, before, from) && Enabled(s, a) && GrowthOrRead(a)
    ensures !(a.Read? && Fooled(s)) && Following(After(s, a), start, before, from)
    ensures After(s, a).disk.path == s.disk.path
  {
    hide Chain, Text, Fooled, Noticed, Poll, KnowsInode, AtLastPiece;
    NoRotation(s, start, before, from);
    StepKeeps(s, a, start);
    var text, r := Now(s.disk.files[s.reader.file]), s.reader;
    match a {
      case Append(f, bytes) => SliceGrows(text, bytes, from, r.pos);
      case Consume(amt) =>
        assert r.buf[..amt] == text[r.pos..r.pos + amt];
        SliceTakes(text, before, from, r.pos, amt);
      case _ =>
    }
  }

  lemma {:induction false} GrowthRun(s: State, actions: seq<Action>, start: nat, before: Bytes, from: nat)
    requires Following(s, start, before, from) && Possible(s, actions) && forall a <- actions :: GrowthOrRead(a)
    ensures Following(Run(s, actions), start, before, from) && Run(s, actions).disk.path == s.disk.path
    decreases |actions|
  {
    hide Following, Fooled, Enabled, After;
    if actions != [] {
      assert actions[0] in actions;
      GrowthStep(s, actions[0], start, before, from);
      GrowthRun(After(s, actions[0]), actions[1..], start, before, from);
    }
  }

  /** With growth alone no rotation is seen, and the consumed bytes are exactly
      those of the file from where it was opened, at its start or at its end, each
      once and in order; when a read finds nothing more, that is the whole rest of
      the file. */
  lemma GrowthDeliversAll(d: Disk, fromStart: bool, actions: seq<Action>)
    requires ValidDisk(d) && d.path.Some? && Possible(Opened(d, fromStart), actions)
    requires forall a <- actions :: GrowthOrRead(a)
    ensures var s := Run(Opened(d, fromStart), actions);
            var start := if fromStart then 0 else |Now(d.files[d.path.value])|;
            s.disk.path == d.path && Holds(s.disk, s.reader)
            && var text := Now(s.disk.files[d.path.value]);
               !Poll(s.disk, s.reader).1 && start <= s.reader.pos <= |text|
               && s.delivered == text[start..s.reader.pos]
               && (s.reader.buf == "" && Refill(s.disk, s.reader, 1) == s.reader ==> s.delivered == text[start..])
  {
    hide Text, Run, Possible;
    var s0, start := Opened(d, fromStart), OpenAt(d, fromStart).pos;
    OnePiece(d, s0.pieces);
    GrowthRun(s0, actions, start, "", start);
    var s := Run(s0, actions);
    NoRotation(s, start, "", start);
    assert "" + Now(s.disk.files[s.reader.file])[start..s.reader.pos]
        == Now(s.disk.files[s.reader.file])[start..s.reader.pos];
  }

  // ----- a rotation is seen -----

  lemma CheckFollows(s: State, start: nat)
    requires Inv(s, start) && Enabled(s, Check) && s.disk.path.Some?
    requires var f := s.disk.files[s.disk.path.value];
             f.inode != s.reader.inode || |Now(f)| < s.reader.pos
    ensures Following(After(s, Check), start, s.delivered, 0)
  {
    hide Text, Chain;
    StepKeeps(s, Check, start);
  }

  /** Where the path names a file with another inode, or one shorter than what was
      consumed, a check turns to it: from then on, with growth alone, its bytes are
      delivered from the first one, each once and in order, and none is left out. */
  lemma RotationDeliversAll(s: State, start: nat, actions: seq<Action>)
    requires Inv(s, start) && Enabled(s, Check) && s.disk.path.Some?
    requires var f := s.disk.files[s.disk.path.value];
             f.inode != s.reader.inode || |Now(f)| < s.reader.pos
    requires Possible(After(s, Check), actions) && forall a <- actions :: GrowthOrRead(a)
    ensures var s' := Run(After(s, Check), actions);
            s'.disk.path == s.disk.path && Holds(s'.disk, s'.reader)
            && var text := Now(s'.disk.files[s.disk.path.value]);
               s'.reader.pos <= |text| && s'.delivered == s.delivered + text[..s'.reader.pos]
               && (s'.reader.buf == "" && Refill(s'.disk, s'.reader, 1) == s'.reader
                   ==> s'.delivered == s.delivered + text)
  {
    hide Run, Possible, Text, Chain;
    CheckFollows(s, start);
    var s1 := After(s, Check);
    GrowthRun(s1, actions, start, s.delivered, 0);
    var s' := Run(s1, actions);
    NoRotation(s', start, s.delivered, 0);
    var text := Now(s'.disk.files[s'.reader.file]);
    assert text[..|text|] == text;
  }

  // ----- the imperative reader -----

  /** One turn of the waiting loop: what the disk is when the read and the poll
      happen, how much the read hands over, whether the stop flag is up, and what
      the last read then finds. */
  datatype Turn = Turn(atRead: Disk, n: nat, atPoll: Disk, stop: bool, atStop: Disk, last: nat)

  /** Files are only added between one look at the disk and the next. */
  predicate Steady(file: nat, turns: seq<Turn>)
    decreases |turns|
  {
    turns != [] ==>
      var t := turns[0];
      ValidDisk(t.atRead) && ValidDisk(t.atPoll) && file < |t.atRead.files| <= |t.atPoll.files|
      && t.n > 0 && (t.stop ==> ValidDisk(t.atStop) && |t.atPoll.files| <= |t.atStop.files| && t.last > 0)
      && Steady(|t.atPoll.files| - 1, turns[1..])
  }

  lemma {:induction false} SteadyBelow(file: nat, below: nat, turns: seq<Turn>)
    requires Steady(file, turns) && below <= file
    ensures Steady(below, turns)
  {
  }

  /** The waiting loop: the next nonempty buffer, or once stopped what one more
      read gives; nothing if it still waits after all these turns. */
  function Fill(r: Reader, turns: seq<Turn>): (Reader, Option<Bytes>)
    requires Steady(r.file, turns)
    decreases |turns|
  {
    if turns == [] then (r, None)
    else
      var t := turns[0];
      var r1 := Refill(t.atRead, r, t.n);
      if r1.buf != "" then (r1, Some(r1.buf))
      else
        var (r2, rotated) := Poll(t.atPoll, r1);
        SteadyBelow(|t.atPoll.files| - 1, r2.file, turns[1..]);
        if !rotated && t.stop then
          var r3 := Refill(t.atStop, r2, t.last);
          (r3, Some(r3.buf))
        else Fill(r2, turns[1..])
  }

  // ----- a wait is a run -----

  predicate Quiet(actions: seq<Action>) {
    forall a <- actions :: a.Append? || a.Truncate? || a.Unlink? || a.Create?
  }

  /** What else happened in a turn: before the read, between the read and the
      poll, and between the poll and the last read. */
  datatype Around = Around(before: seq<Action>, between: seq<Action>, after: seq<Action>)

  /** The turns show what a disk goes through while the reader waits. */
  predicate Seen(s: State, turns: seq<Turn>, around: seq<Around>)
    decreases |turns|
  {
    |turns| == |around| &&
    (turns != [] ==>
       var t, before, between, after := turns[0], around[0].before, around[0].between, around[0].after;
       Quiet(before) && Possible(s, before) &&
       var s1 := Run(s, before);
       s1.disk == t.atRead && Enabled(s1, Read(t.n)) &&
       var s2 := After(s1, Read(t.n));
       (s2.reader.buf == "" ==>
          Quiet(between) && Possible(s2, between) &&
          var s3 := Run(s2, between);
          s3.disk == t.atPoll && Enabled(s3, Check) &&
          var s4 := After(s3, Check);
          if t.stop && !Poll(s3.disk, s3.reader).1 then
            Quiet(after) && Possible(s4, after)
            && Run(s4, after).disk == t.atStop && Enabled(Run(s4, after), Read(t.last))
          else Seen(s4, turns[1..], around[1..])))
  }

  lemma {:induction false} RunConcat(s: State, a: seq<Action>, b: seq<Action>)
    requires Possible(s, a) && Possible(Run(s, a), b)
    ensures Possible(s, a + b) && Run(s, a + b) == Run(Run(s, a), b)
    decreases |a|
  {
    hide Enabled, After;
    if a == [] {
      assert a + b == b;
    } else {
      assert (a + b)[1..] == a[1..] + b;
      RunConcat(After(s, a[0]), a[1..], b);
    }
  }

  lemma RunOne(s: State, a: Action)
    requires Enabled(s, a)
    ensures Possible(s, [a]) && Run(s, [a]) == After(s, a)
  {
    hide Enabled, After;
    assert [a][1..] == [];
  }

  lemma {:induction false} QuietKeepsReader(s: State, actions: seq<Action>)
    requires Quiet(actions) && Possible(s, actions)
    ensures Run(s, actions).reader == s.reader
    decreases |actions|
  {
    hide Enabled;
    if actions != [] {
      assert actions[0] in actions;
      QuietKeepsReader(After(s, actions[0]), actions[1..]);
    }
  }

  predicate QuietReadOrCheck(actions: seq<Action>) { forall a <- actions :: !a.Consume? }

  /** A call of `fill_buf` is a run in which the reader only reads and checks, so
      what holds of runs holds of the bytes that its callers consume. */
  lemma {:induction false} FillIsRun(s: State, turns: seq<Turn>, around: seq<Around>)
    returns (actions: seq<Action>)
    requires Steady(s.reader.file, turns) && Seen(s, turns, around)
    ensures Possible(s, actions) && QuietReadOrCheck(actions)
    ensures Run(s, actions).reader == Fill(s.reader, turns).0
    ensures Fill(s.reader, turns).1.Some? ==> Fill(s.reader, turns).1.value == Run(s, actions).reader.buf
    decreases |turns|
  {
    hide Enabled, Refill, Poll, Steady;
    actions := [];
    if turns != [] {
      var t, before, between, after := turns[0], around[0].before, around[0].between, around[0].after;
      var s1, s2 := ReadTurn(s, t.atRead, t.n, before);
      actions := before + [Read(t.n)];
      if s2.reader.buf == "" {
        var s3, s4 := CheckTurn(s2, t, between);
        RunConcat(s, actions, between + [Check]);
        actions := actions + (between + [Check]);
        TurnFills(s.reader, turns, s2.reader, s4.reader);
        if !Poll(t.atPoll, s2.reader).1 && t.stop {
          var s5, s6 := ReadTurn(s4, t.atStop, t.last, after);
          RunConcat(s, actions, after + [Read(t.last)]);
          actions := actions + (after + [Read(t.last)]);
        } else {
          var rest := FillIsRun(s4, turns[1..], around[1..]);
          RunConcat(s, actions, rest);
          actions := actions + rest;
        }
      } else {
        TurnFillsAtOnce(s.reader, turns, s2.reader);
      }
    }
  }

  lemma ReadTurn(s: State, d: Disk, n: nat, before: seq<Action>) returns (s1: State, s2: State)
    requires Quiet(before) && Possible(s, before)
    requires Run(s, before).disk == d && Enabled(Run(s, before), Read(n))
    ensures s1 == Run(s, before) && s2 == After(s1, Read(n))
    ensures var actions := before + [Read(n)];
            Possible(s, actions) && Run(s, actions) == s2 && QuietReadOrCheck(actions)
    ensures Holds(d, s.reader) && s2.reader == Refill(d, s.reader, n)
  {
    hide Possible, Run, Refill;
    s1 := Run(s, before);
    s2 := After(s1, Read(n));
    QuietKeepsReader(s, before);
    RunOne(s1, Read(n));
    RunConcat(s, before, [Read(n)]);
  }

  lemma CheckTurn(s2: State, t: Turn, between: seq<Action>) returns (s3: State, s4: State)
    requires Quiet(between) && Possible(s2, between)
    requires Run(s2, between).disk == t.atPoll && Enabled(Run(s2, between), Check)
    ensures s3 == Run(s2, between) && s4 == After(s3, Check)
    ensures var actions := between + [Check];
            Possible(s2, actions) && Run(s2, actions) == s4 && QuietReadOrCheck(actions)
    ensures s3.reader == s2.reader && Holds(t.atPoll, s2.reader) && s4.reader == Poll(t.atPoll, s2.reader).0
  {
    hide Possible, Run, Poll;
    s3 := Run(s2, between);
    s4 := After(s3, Check);
    QuietKeepsReader(s2, between);
    RunOne(s3, Check);
    RunConcat(s2, between, [Check]);
  }

  /** One turn of the waiting loop that finds nothing to read. */
  lemma TurnFills(r: Reader, turns: seq<Turn>, r1: Reader, r2: Reader)
    requires turns != [] && Steady(r.file, turns) && Holds(turns[0].atRead, r)
    requires r1 == Refill(turns[0].atRead, r, turns[0].n) && r1.buf == ""
    requires Holds(turns[0].atPoll, r1) && r2 == Poll(turns[0].atPoll, r1).0
    ensures Steady(r2.file, turns[1..])
    ensures Fill(r, turns)
         == if !Poll(turns[0].atPoll, r1).1 && turns[0].stop then
              var r3 := Refill(turns[0].atStop, r2, turns[0].last);
              (r3, Some(r3.buf))
            else Fill(r2, turns[1..])
  {
    SteadyBelow(|turns[0].atPoll.files| - 1, r2.file, turns[1..]);
  }

  lemma TurnFillsAtOnce(r: Reader, turns: seq<Turn>, r1: Reader)
    requires turns != [] && Steady(r.file, turns) && Holds(turns[0].atRead, r)
    requires r1 == Refill(turns[0].atRead, r, turns[0].n) && r1.buf != ""
    ensures Fill(r, turns) == (r1, Some(r1.buf))
  {
  }

  class TailReader {
    var inode: nat
    var file: nat
    var off: nat
    var buf: Bytes
    var readPos: nat

    ghost function View(): Reader
      reads this
    {
      Reader(inode, file, off, buf, readPos)
    }

    /** `open` and `open_from_start` differ in the offset. */
    constructor (d: Disk, fromStart: bool)
      requires ValidDisk(d) && d.path.Some?
      ensures View() == OpenAt(d, fromStart)
      ensures off == readPos == (if fromStart then 0 else |Now(d.files[d.path.value])|) && buf == ""
    {
      var f := d.files[d.path.value];
      var at := if fromStart then 0 else |Now(f)|;
      inode, file, off, buf, readPos := f.inode, d.path.value, at, "", at;
    }

    method CheckRotation(d: Disk) returns (rotated: bool)
      requires Holds(d, View())
      modifies this
      ensures (View(), rotated) == Poll(d, old(View()))
      ensures rotated <==> d.path.Some? && (d.files[d.path.value].inode != old(inode)
                                            || |Now(d.files[d.path.value])| < old(readPos))
      ensures rotated ==> View() == Reader(d.files[d.path.value].inode, d.path.value, 0, "", 0)
      ensures !rotated ==> View() == old(View())
    {
      if d.path.None? { return false; }
      var newFile := d.path.value;
      if d.files[newFile].inode != inode {
        inode := d.files[newFile].inode;
        file, off, buf := newFile, 0, "";
        readPos := 0;
        return true;
      }
      if |Now(d.files[newFile])| < readPos {
        file, off, buf := newFile, 0, "";
        readPos := 0;
        return true;
      }
      return false;
    }

    /** One `read` of the buffered reader. */
    method ReadMore(d: Disk, n: nat)
      requires Holds(d, View())
      modifies this
      ensures View() == Refill(d, old(View()), n)
    {
      var text := Now(d.files[file]);
      if buf == "" && off < |text| {
        var k := Min(n, |text| - off);
        buf := text[off..off + k];
        off := off + k;
      }
    }

    /** `fill_buf`: read, poll and wait until there is something or a stop. */
    method FillBuf(turns: seq<Turn>) returns (out: Option<Bytes>)
      requires Steady(file, turns)
      modifies this
      ensures (View(), out) == Fill(old(View()), turns)
    {
      var i := 0;
      while i < |turns|
        invariant 0 <= i <= |turns|
        invariant Steady(file, turns[i..])
        invariant Fill(View(), turns[i..]) == Fill(old(View()), turns)
      {
        var t := turns[i];
        assert turns[i..][0] == t && turns[i..][1..] == turns[i + 1..];
        ReadMore(t.atRead, t.n);
        if |buf| > 0 { return Some(buf); }
        var rotated := CheckRotation(t.atPoll);
        SteadyBelow(|t.atPoll.files| - 1, file, turns[i + 1..]);
        i := i + 1;
        if rotated { continue; }
        if t.stop {
          ReadMore(t.atStop, t.last);
          return Some(buf);
        }
      }
      out := None;
    }

    method Consume(amt: nat)
      requires amt <= |buf|
      modifies this
      ensures View() == Eat(old(View()), amt)
    {
      readPos := readPos + amt;
      buf := buf[amt..];
    }
  }
}
