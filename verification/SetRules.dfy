/** The version rules of a set: which writes are accepted, with which version, and that replicas
    which receive the same writes in any order agree. */
module SetRules {
  import opened Bytes
  import opened HTreeBlocks
  import opened Record
  import Fnv1a

  /** The state of one key: a negative version marks a deleted key. */
  datatype Cell = Cell(ver: int, flag: int, value: seq<byte>)

  datatype Change = Change(value: seq<byte>, flag: int, version: int)

  function Abs(x: int): (r: int)
    ensures r >= 0 && (r == x || r == -x)
  {
    if x < 0 then -x else x
  }

  function VersionOf(c: Option<Cell>): int {
    if c.Some? then c.value.ver else 0
  }

  /** The new version, or None when the write is refused. Version 0 replaces or adds, -1 deletes,
      any other is an explicit version and must exceed the stored one; the absolute value of -2^31
      does not fit its type and stays negative, so that version is refused. */
  function Decide(oldv: int, version: int): (r: Option<int>)
    ensures r.Some? ==> Abs(r.value) > Abs(oldv) && r.value != 0
  {
    if version == 0 && oldv > 0 then Some(oldv + 1)
    else if version == 0 && oldv <= 0 then Some(-oldv + 1)
    else if version < 0 && oldv <= 0 then None
    else if version == -1 then Some(-Abs(oldv) - 1)
    else if version == -TWO_31 || Abs(version) <= Abs(oldv) then None
    else Some(version)
  }

  predicate BadSet(w: Change) {
    (w.version < 0 && |w.value| > 0) || |w.value| > MAX_VALUE_LEN
  }

  predicate SameContent(c: Option<Cell>, w: Change, ver: int) {
    c.Some? && c.value.ver > 0 && ver > 0 && c.value.flag == w.flag && c.value.value == w.value
  }

  /** The set adds a record to the log. */
  predicate Written(c: Option<Cell>, w: Change) {
    match Decide(VersionOf(c), w.version)
    case None => false
    case Some(ver) => !SameContent(c, w, ver)
  }

  /** What a set does to its key. A write with the content the key already has is not stored
      again; an explicit version is still raised. */
  function CellStep(c: Option<Cell>, w: Change): Option<Cell> {
    if BadSet(w) then c else
    match Decide(VersionOf(c), w.version)
    case None => c
    case Some(ver) =>
      if SameContent(c, w, ver) then (if w.version != 0 then Some(c.value.(ver := ver)) else c)
      else Some(Cell(ver, w.flag, w.value))
  }

  // ---- What clients may rely on -----------------------------------------------------------------

  /** When a write is accepted: a write without a version always, one with a version if that is higher
      than the stored one, and a deletion only of a key that is there. */
  predicate Succeeds(c: Option<Cell>, w: Change) {
    var v := VersionOf(c);
    && |w.value| <= MAX_VALUE_LEN && (w.version < 0 ==> w.value == []) && w.version != -TWO_31
    && (|| w.version == 0
        || w.version > Abs(v)
        || (w.version < 0 < v && (w.version == -1 || -w.version > v)))
  }

  lemma SucceedsExactly(c: Option<Cell>, w: Change)
    ensures Succeeds(c, w) <==> !BadSet(w) && Decide(VersionOf(c), w.version).Some?
  {
  }

  /** A refused write changes nothing. An accepted deletion leaves a dead key, one version up or at the
      version that was asked for. Any other accepted write leaves the key live with its value and flag: at
      the version asked for, or else one version up unless the content is the same. */
  lemma CellLaw(c: Option<Cell>, w: Change)
    ensures !Succeeds(c, w) ==> CellStep(c, w) == c
    ensures Succeeds(c, w) && w.version < 0 ==>
      CellStep(c, w) == Some(Cell(if w.version == -1 then -VersionOf(c) - 1 else w.version, w.flag, []))
    ensures Succeeds(c, w) && w.version > 0 ==> CellStep(c, w) == Some(Cell(w.version, w.flag, w.value))
    ensures Succeeds(c, w) && w.version == 0 ==> var v := VersionOf(c);
      var same := v > 0 && c == Some(Cell(v, w.flag, w.value));
      CellStep(c, w) == Some(Cell(if same then v else Abs(v) + 1, w.flag, w.value))
  {
  }

  /** No write lowers the absolute version, and an accepted explicit one raises it. */
  lemma VersionNeverDrops(c: Option<Cell>, w: Change)
    ensures Abs(VersionOf(CellStep(c, w))) >= Abs(VersionOf(c))
    ensures CellStep(c, w) == c || Abs(VersionOf(CellStep(c, w))) > Abs(VersionOf(c))
  {
    match Decide(VersionOf(c), w.version)
    case None =>
    case Some(ver) => assert Abs(ver) > Abs(VersionOf(c));
  }

  function Fold(c: Option<Cell>, ws: seq<Change>): Option<Cell> {
    if ws == [] then c else CellStep(Fold(c, ws[..|ws| - 1]), ws[|ws| - 1])
  }

  lemma {:induction false} VersionsNeverDrop(c: Option<Cell>, ws: seq<Change>)
    ensures Abs(VersionOf(Fold(c, ws))) >= Abs(VersionOf(c))
    decreases |ws|
  {
    if ws != [] {
      VersionsNeverDrop(c, ws[..|ws| - 1]);
      VersionNeverDrops(Fold(c, ws[..|ws| - 1]), ws[|ws| - 1]);
    }
  }

  // ---- Convergence ------------------------------------------------------------------------------

  /** Writes as a replica sends them: explicit positive versions, no two alike. */
  predicate Synced(ws: seq<Change>) {
    && (forall i :: 0 <= i < |ws| ==> ws[i].version > 0 && !BadSet(ws[i]))
    && (forall i, j :: 0 <= i < j < |ws| ==> ws[i].version != ws[j].version)
  }

  predicate Highest(ws: seq<Change>, w: Change) {
    w in ws && forall x :: x in ws ==> x.version <= w.version
  }

  lemma SyncStep(v: Change, w: Change)
    requires v.version > 0 && w.version > 0 && v.version != w.version && !BadSet(w)
    ensures var x := if w.version > v.version then w else v;
      CellStep(Some(Cell(v.version, v.flag, v.value)), w) == Some(Cell(x.version, x.flag, x.value))
  {
  }

  lemma SyncedFront(ws: seq<Change>)
    requires Synced(ws) && ws != []
    ensures var n := |ws| - 1;
      && Synced(ws[..n]) && ws[n].version > 0 && !BadSet(ws[n])
      && forall x :: x in ws[..n] ==> x.version > 0 && x.version != ws[n].version
  {
    hide BadSet;
  }

  lemma HighestSnoc(front: seq<Change>, last: Change, v: Change)
    requires Highest(front, v)
    ensures Highest(front + [last], if last.version > v.version then last else v)
  {
    assert v in front + [last] && last in front + [last];
  }

  /** What a run of such writes leaves: the highest version above the one that was there, or nothing new. */
  predicate Outcome(c: Option<Cell>, ws: seq<Change>, won: bool, w: Change, r: Option<Cell>) {
    if won then
      Highest(ws, w) && w.version > Abs(VersionOf(c)) && r == Some(Cell(w.version, w.flag, w.value))
    else r == c && forall x :: x in ws ==> x.version <= Abs(VersionOf(c))
  }

  lemma FirstStep(c: Option<Cell>, w: Change)
    requires w.version > 0 && !BadSet(w)
    ensures CellStep(c, w) == if w.version > Abs(VersionOf(c)) then Some(Cell(w.version, w.flag, w.value)) else c
  {
  }

  /** From any cell and in whatever order they arrive, the write with the highest version wins if that
      version exceeds the stored one; otherwise the cell is unchanged. */
  lemma {:induction false} Converges(c: Option<Cell>, ws: seq<Change>) returns (won: bool, w: Change)
    requires Synced(ws)
    ensures Outcome(c, ws, won, w, Fold(c, ws))
    decreases |ws|
  {
    hide Synced, CellStep, BadSet, Abs;
    won, w := false, Change([], 0, 0);
    if ws != [] {
      var n := |ws| - 1;
      var last, front := ws[n], ws[..n];
      assert ws == front + [last];
      SyncedFront(ws);
      won, w := Converges(c, front);
      if won {
        SyncStep(w, last);
        HighestSnoc(front, last, w);
        w := if last.version > w.version then last else w;
      } else {
        FirstStep(c, last);
        if last.version > Abs(VersionOf(c)) {
          won, w := true, last;
        }
      }
    }
  }

  lemma HighestOnce(ws: seq<Change>, v: Change, w: Change)
    requires Synced(ws) && Highest(ws, v) && Highest(ws, w)
    ensures v == w
  {
    var i :| 0 <= i < |ws| && ws[i] == v;
    var j :| 0 <= j < |ws| && ws[j] == w;
  }

  /** Two replicas that hold the same and get the same writes in different orders hold the same again. */
  lemma ReplicasAgree(c: Option<Cell>, a: seq<Change>, b: seq<Change>)
    requires Synced(a) && Synced(b) && multiset(a) == multiset(b)
    ensures Fold(c, a) == Fold(c, b)
  {
    hide Fold, Synced, Abs;
    var x, v := Converges(c, a);
    var y, w := Converges(c, b);
    assert forall u :: u in a <==> u in multiset(a);
    assert forall u :: u in b <==> u in multiset(b);
    if x && y { HighestOnce(b, v, w); }
  }

  // ---- Hashes -----------------------------------------------------------------------------------

  /** The hash stored with a version: 0 for a deleted key. */
  function HashFor(ver: int, value: seq<byte>): (h: int)
    ensures 0 <= h < TWO_16
  {
    if ver > 0 then GenHash(value) else 0
  }

  lemma EmptyMix()
    ensures Fnv1a.Mix(0x811c_9dc5, []) == 0x811c_9dc5
  {
  }

  /** The hash of an empty value is not 0, so a delete never looks like a write of the content
      that is already there, and a tombstone is always written. */
  lemma EmptyHash()
    ensures GenHash([]) == 0x9dc5
  {
    EmptyMix();
    assert Fnv1a.Hash([]) == 0x811c_9dc5;
  }
}
