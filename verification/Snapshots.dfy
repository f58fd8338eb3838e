/** Multi-disk snapshots of api/compute.py: the disks' own snapshots and the index file beside them.
    Calls that apply or delete a disk snapshot are taken to succeed; creating one may fail. */
module Snapshots {
  import opened Bytes

  datatype Disk = Disk(content: seq<byte>, snaps: map<string, seq<byte>>)

  type Disks = map<string, Disk>

  datatype Snap = Snap(name: string, disks: seq<string>)

  datatype State = State(disks: Disks, index: seq<Snap>, running: bool)

  // ----- what qemu-img snapshot does to one disk -----

  ghost predicate Present(disks: Disks, names: seq<string>) {
    forall d | d in names :: d in disks
  }

  function Take(disk: Disk, name: string): Disk {
    disk.(snaps := disk.snaps[name := disk.content])
  }

  function Drop(disk: Disk, name: string): Disk {
    disk.(snaps := disk.snaps - {name})
  }

  function Revert(disk: Disk, name: string): Disk {
    if name in disk.snaps then disk.(content := disk.snaps[name]) else disk
  }

  /** Each disk in `names` changed by `f`, the others as they are. */
  function OnEach(disks: Disks, names: seq<string>, f: Disk -> Disk): Disks {
    map d | d in disks :: if d in names then f(disks[d]) else disks[d]
  }

  lemma OnEachMeaning(disks: Disks, names: seq<string>, f: Disk -> Disk)
    ensures OnEach(disks, names, f).Keys == disks.Keys
    ensures forall d | d in disks :: OnEach(disks, names, f)[d] == if d in names then f(disks[d]) else disks[d]
  {
  }

  lemma OnEachStep(disks: Disks, names: seq<string>, i: nat, f: Disk -> Disk)
    requires Present(disks, names) && NoRepeats(names) && i < |names|
    ensures var before := OnEach(disks, names[..i], f);
            && names[i] in before && before[names[i]] == disks[names[i]]
            && OnEach(disks, names[..i + 1], f) == before[names[i] := f(before[names[i]])]
  {
    assert names[i] !in names[..i];
    assert names[..i + 1] == names[..i] + [names[i]];
  }

  // ----- what a call does -----

  predicate NameChar(c: char) {
    'a' <= c <= 'z' || 'A' <= c <= 'Z' || '0' <= c <= '9'
  }

  predicate PlainName(name: string) {
    1 <= |name| <= 64 && NameChar(name[0])
    && forall i | 0 < i < |name| :: NameChar(name[i]) || name[i] == '.' || name[i] == '_' || name[i] == '-'
  }

  /** `SNAPSHOT_NAME_RE`, whose `$` also matches before a final newline. */
  predicate ValidName(name: string) {
    PlainName(name) || (name != "" && name[|name| - 1] == '\n' && PlainName(name[..|name| - 1]))
  }

  /** A name outside the pattern's own characters is accepted exactly when it is a good name and a
      newline, as in this one. */
  lemma NewlineName(name: string)
    ensures ValidName(name) && !PlainName(name)
       <==> name != "" && name[|name| - 1] == '\n' && PlainName(name[..|name| - 1])
    ensures ValidName("a\n") && !PlainName("a\n")
  {
    var n := "a\n";
    assert n[..1] == "a" && PlainName("a");
    assert n[1] == '\n' && !NameChar('\n');
    if name != "" && name[|name| - 1] == '\n' {
      assert !PlainName(name);
    }
  }

  predicate HasName(index: seq<Snap>, name: string) {
    exists i | 0 <= i < |index| :: index[i].name == name
  }

  function Find(index: seq<Snap>, name: string): Option<Snap> {
    if index == [] then None else if index[0].name == name then Some(index[0]) else Find(index[1..], name)
  }

  function OtherName(name: string): Snap -> bool {
    (snap: Snap) => snap.name != name
  }

  function Without(index: seq<Snap>, name: string): seq<Snap> {
    Keep(index, OtherName(name))
  }

  /** What may happen to an instance: a write by the guest, a new disk, power on or off, and the three
      calls. `order` is the disks in the order a create visits them; `works` is whether every one of
      its steps works; `start` is whether a restore is told to start the domain or to leave it stopped. */
  datatype Event =
    | Write(disk: string, content: seq<byte>)
    | Attach(disk: string, content: seq<byte>)
    | Power(on: bool)
    | Create(name: string, order: seq<string>, works: bool)
    | Restore(name: string, start: Option<bool>)
    | Delete(name: string)

  predicate Enabled(s: State, e: Event) {
    match e
    case Write(d, _) => d in s.disks
    case Attach(d, _) => d !in s.disks
    case Create(_, order, _) =>
      (forall d | d in s.disks :: d in order) && (forall d | d in order :: d in s.disks) && NoRepeats(order)
    case _ => true
  }

  predicate Creates(s: State, e: Event) {
    e.Create? && e.works && ValidName(e.name) && !HasName(s.index, e.name) && e.order != []
  }

  function Apply(s: State, e: Event): State
    requires Enabled(s, e)
  {
    match e
    case Write(d, content) => s.(disks := s.disks[d := s.disks[d].(content := content)])
    case Attach(d, content) => s.(disks := s.disks[d := Disk(content, map[])])
    case Power(on) => s.(running := on)
    // the domain is stopped for it and started again if it was running, whether it works or not
    case Create(name, order, _) =>
      if !Creates(s, e) then s
      else s.(disks := OnEach(s.disks, order, disk => Take(disk, name)), index := s.index + [Snap(name, order)])
    case Restore(name, start) =>
      var snap := Find(s.index, name);
      if snap.None? then s
      else s.(disks := OnEach(s.disks, snap.value.disks, disk => Revert(disk, name)),
              running := if start.Some? then start.value else s.running)
    // refused while the domain is running
    case Delete(name) =>
      var snap := Find(s.index, name);
      if snap.None? || s.running then s
      else s.(disks := OnEach(s.disks, snap.value.disks, disk => Drop(disk, name)), index := Without(s.index, name))
  }

  // ----- what every step keeps -----

  ghost predicate UniqueNames(index: seq<Snap>) {
    forall i, j | 0 <= i < j < |index| :: index[i].name != index[j].name
  }

  /** Every indexed snapshot exists on all its disks. */
  ghost predicate OnItsDisks(disks: Disks, snap: Snap) {
    NoRepeats(snap.disks) && forall d | d in snap.disks :: d in disks && snap.name in disks[d].snaps
  }

  ghost predicate Recorded(index: seq<Snap>, d: string, name: string) {
    exists snap :: snap in index && snap.name == name && d in snap.disks
  }

  /** Names are unique, every indexed snapshot exists on all its disks, and there are no others. */
  ghost predicate Inv(s: State) {
    && UniqueNames(s.index)
    && (forall snap | snap in s.index :: OnItsDisks(s.disks, snap))
    && (forall d, name | d in s.disks && name in s.disks[d].snaps :: Recorded(s.index, d, name))
  }

  lemma {:induction false} FindMeaning(index: seq<Snap>, name: string)
    ensures Find(index, name).Some? <==> HasName(index, name)
    ensures Find(index, name).Some? ==> Find(index, name).value in index && Find(index, name).value.name == name
  {
    if index != [] {
      FindMeaning(index[1..], name);
      if HasName(index[1..], name) {
        var i :| 0 <= i < |index[1..]| && index[1..][i].name == name;
        assert index[i + 1].name == name;
      }
      if HasName(index, name) && index[0].name != name {
        var i :| 0 <= i < |index| && index[i].name == name;
        assert index[1..][i - 1].name == name;
      }
    }
  }

  lemma WithoutMeaning(index: seq<Snap>, name: string)
    requires UniqueNames(index)
    ensures UniqueNames(Without(index, name))
    ensures forall snap :: snap in Without(index, name) <==> snap in index && snap.name != name
  {
    var apart := (a: Snap, b: Snap) => a.name != b.name;
    assert Pairwise(index, apart);
    KeepPairwise(index, OtherName(name), apart);
    KeepMembers(index, OtherName(name));
    hide Keep;
  }

  lemma TakenSnaps(disks: Disks, order: seq<string>, name: string, d: string)
    requires d in disks
    ensures var taken := OnEach(disks, order, disk => Take(disk, name));
            && taken.Keys == disks.Keys
            && taken[d].content == disks[d].content
            && taken[d].snaps == if d in order then disks[d].snaps[name := disks[d].content] else disks[d].snaps
  {
  }

  lemma DroppedSnaps(disks: Disks, order: seq<string>, name: string, d: string)
    requires d in disks
    ensures var dropped := OnEach(disks, order, disk => Drop(disk, name));
            && dropped.Keys == disks.Keys
            && dropped[d].content == disks[d].content
            && dropped[d].snaps == if d in order then disks[d].snaps - {name} else disks[d].snaps
  {
  }

  lemma AddedUnique(index: seq<Snap>, snap: Snap)
    requires UniqueNames(index) && !HasName(index, snap.name)
    ensures UniqueNames(index + [snap])
  {
  }

  lemma RecordedMore(index: seq<Snap>, snap: Snap, d: string, name: string)
    requires Recorded(index, d, name) || (snap.name == name && d in snap.disks)
    ensures Recorded(index + [snap], d, name)
  {
    if Recorded(index, d, name) {
      var one :| one in index && one.name == name && d in one.disks;
      assert one in index + [snap];
    } else {
      assert snap in index + [snap];
    }
  }

  lemma CreateKeepsInv(s: State, e: Event)
    requires Inv(s) && Enabled(s, e) && Creates(s, e)
    ensures Inv(Apply(s, e))
  {
    var s', snap := Apply(s, e), Snap(e.name, e.order);
    var taken := OnEach(s.disks, e.order, disk => Take(disk, e.name));
    assert s' == s.(disks := taken, index := s.index + [snap]);
    AddedUnique(s.index, snap);
    FreshName(s, e.name);
    hide Apply, ValidName, UniqueNames, HasName;
    forall d | d in s.disks
      ensures d in taken && taken[d].snaps == s.disks[d].snaps[e.name := s.disks[d].content]
    {
      TakenSnaps(s.disks, e.order, e.name, d);
    }
    assert taken.Keys == s.disks.Keys;
    hide OnEach, Recorded;
    forall one | one in s'.index
      ensures OnItsDisks(taken, one)
    {
      assert one != snap ==> OnItsDisks(s.disks, one);
    }
    forall d, name | d in taken && name in taken[d].snaps
      ensures Recorded(s'.index, d, name)
    {
      RecordedMore(s.index, snap, d, name);
    }
  }

  lemma DeleteKeepsInv(s: State, name: string)
    requires Inv(s)
    ensures Inv(Apply(s, Delete(name)))
  {
    FindMeaning(s.index, name);
    var found := Find(s.index, name);
    if found.Some? && !s.running {
      WithoutMeaning(s.index, name);
      var s' := Apply(s, Delete(name));
      assert s'.index == Without(s.index, name);
      forall d | d in s.disks
        ensures d in s'.disks
        ensures s'.disks[d].snaps == if d in found.value.disks then s.disks[d].snaps - {name} else s.disks[d].snaps
      {
        DroppedSnaps(s.disks, found.value.disks, name, d);
      }
      assert s'.disks.Keys == s.disks.Keys;
      hide OnEach, Apply, Find, Without;
      forall snap | snap in s'.index
        ensures OnItsDisks(s'.disks, snap)
      {
        assert OnItsDisks(s.disks, snap);
      }
      forall d, n | d in s'.disks && n in s'.disks[d].snaps
        ensures Recorded(s'.index, d, n)
      {
        assert Recorded(s.index, d, n);
        var old' :| old' in s.index && old'.name == n && d in old'.disks;
        if n == name {
          SameSnap(s.index, old', found.value);
        }
        assert old' in s'.index;
      }
    }
  }

  lemma SameSnap(index: seq<Snap>, a: Snap, b: Snap)
    requires UniqueNames(index) && a in index && b in index && a.name == b.name
    ensures a == b
  {
    var i :| 0 <= i < |index| && index[i] == a;
    var j :| 0 <= j < |index| && index[j] == b;
  }

  /** Changes that leave every disk's snapshots alone, and may add disks without any. */
  lemma ContentChange(s: State, s': State)
    requires Inv(s) && s'.index == s.index
    requires forall d | d in s.disks :: d in s'.disks && s'.disks[d].snaps == s.disks[d].snaps
    requires forall d | d in s'.disks && d !in s.disks :: s'.disks[d].snaps == map[]
    ensures Inv(s')
  {
    forall snap | snap in s'.index
      ensures OnItsDisks(s'.disks, snap)
    {
      assert OnItsDisks(s.disks, snap);
    }
    forall d, name | d in s'.disks && name in s'.disks[d].snaps
      ensures Recorded(s'.index, d, name)
    {
      assert d in s.disks && name in s.disks[d].snaps;
    }
  }

  lemma StepKeepsInv(s: State, e: Event)
    requires Inv(s) && Enabled(s, e)
    ensures Inv(Apply(s, e))
  {
    hide Inv, OnEach, Creates;
    match e
    case Write(_, _) => ContentChange(s, Apply(s, e));
    case Attach(_, _) => ContentChange(s, Apply(s, e));
    case Power(_) => ContentChange(s, Apply(s, e));
    case Create(_, _, _) =>
      if Creates(s, e) {
        CreateKeepsInv(s, e);
      }
    case Restore(name, start) => RestoreKeepsInv(s, name, start);
    case Delete(name) => DeleteKeepsInv(s, name);
  }

  lemma RestoreKeepsInv(s: State, name: string, start: Option<bool>)
    requires Inv(s)
    ensures Inv(Apply(s, Restore(name, start)))
  {
    var snap := Find(s.index, name);
    if snap.Some? {
      OnEachMeaning(s.disks, snap.value.disks, disk => Revert(disk, name));
      hide Inv, OnEach;
      ContentChange(s, Apply(s, Restore(name, start)));
    }
  }

  predicate Legal(s: State, es: seq<Event>)
    decreases |es|
  {
    es == [] || (Enabled(s, es[0]) && Legal(Apply(s, es[0]), es[1..]))
  }

  function After(s: State, es: seq<Event>): State
    requires Legal(s, es)
    decreases |es|
  {
    if es == [] then s else After(Apply(s, es[0]), es[1..])
  }

  /** In every reachable state names are unique and index and disks agree. */
  lemma {:induction false} RunKeepsInv(s: State, es: seq<Event>)
    requires Inv(s) && Legal(s, es)
    ensures Inv(After(s, es))
    decreases |es|
  {
    if es != [] {
      hide Inv, Apply, Enabled;
      StepKeepsInv(s, es[0]);
      RunKeepsInv(Apply(s, es[0]), es[1..]);
    }
  }

  // ----- restoring -----

  /** The snapshot is in the index with these disks, and disk `d` has `content` saved under it. */
  ghost predicate Saved(s: State, snap: Snap, d: string, content: seq<byte>) {
    && snap in s.index && d in snap.disks
    && d in s.disks && snap.name in s.disks[d].snaps && s.disks[d].snaps[snap.name] == content
  }

  lemma StepKeepsSaved(s: State, e: Event, snap: Snap, d: string, content: seq<byte>)
    requires Inv(s) && Enabled(s, e) && Saved(s, snap, d, content)
    requires e != Delete(snap.name)
    ensures Saved(Apply(s, e), snap, d, content)
  {
    match e
    case Write(_, _) =>
    case Attach(_, _) =>
    case Power(_) =>
    case Create(name, order, _) =>
      if Creates(s, e) {
        CreateKeepsSaved(s, e, snap, d, content);
      }
    case Restore(name, _) => RestoreKeepsSaved(s, e, snap, d, content);
    case Delete(name) => DeleteKeepsSaved(s, name, snap, d, content);
  }

  lemma CreateKeepsSaved(s: State, e: Event, snap: Snap, d: string, content: seq<byte>)
    requires Enabled(s, e) && Creates(s, e) && Saved(s, snap, d, content)
    ensures Saved(Apply(s, e), snap, d, content)
  {
    assert e.name != snap.name;
    TakenSnaps(s.disks, e.order, e.name, d);
    hide OnEach, ValidName;
  }

  lemma RestoreKeepsSaved(s: State, e: Event, snap: Snap, d: string, content: seq<byte>)
    requires e.Restore? && Saved(s, snap, d, content)
    ensures Saved(Apply(s, e), snap, d, content)
  {
    var found := Find(s.index, e.name);
    if found.Some? {
      OnEachMeaning(s.disks, found.value.disks, disk => Revert(disk, e.name));
      hide OnEach, Find;
    }
  }

  lemma DeleteKeepsSaved(s: State, name: string, snap: Snap, d: string, content: seq<byte>)
    requires Inv(s) && Saved(s, snap, d, content) && name != snap.name
    ensures Saved(Apply(s, Delete(name)), snap, d, content)
  {
    WithoutMeaning(s.index, name);
    var found := Find(s.index, name);
    hide Inv, Find, Without;
    if found.Some? && !s.running {
      DroppedSnaps(s.disks, found.value.disks, name, d);
      hide OnEach;
    }
  }

  lemma {:induction false} RunKeepsSaved(s: State, es: seq<Event>, snap: Snap, d: string, content: seq<byte>)
    requires Inv(s) && Legal(s, es) && Saved(s, snap, d, content)
    requires Delete(snap.name) !in es
    ensures Saved(After(s, es), snap, d, content)
    decreases |es|
  {
    if es != [] {
      StepKeepsInv(s, es[0]);
      StepKeepsSaved(s, es[0], snap, d, content);
      hide Inv, Saved, Apply, Enabled;
      RunKeepsSaved(Apply(s, es[0]), es[1..], snap, d, content);
    }
  }

  lemma CreateSaves(s: State, e: Event, d: string)
    requires Enabled(s, e) && Creates(s, e) && d in s.disks
    ensures Saved(Apply(s, e), Snap(e.name, e.order), d, s.disks[d].content)
  {
    TakenSnaps(s.disks, e.order, e.name, d);
    hide OnEach;
    assert Apply(s, e).index[|s.index|] == Snap(e.name, e.order);
  }

  lemma SavedRestores(s: State, snap: Snap, d: string, content: seq<byte>, start: Option<bool>)
    requires Inv(s) && Saved(s, snap, d, content)
    ensures var s' := Apply(s, Restore(snap.name, start));
            d in s'.disks && s'.disks[d].content == content
  {
    FindMeaning(s.index, snap.name);
    var i :| 0 <= i < |s.index| && s.index[i] == snap;
    assert HasName(s.index, snap.name);
    SameSnap(s.index, Find(s.index, snap.name).value, snap);
    OnEachMeaning(s.disks, snap.disks, disk => Revert(disk, snap.name));
    hide OnEach, Find, Inv;
  }

  /** Restoring a snapshot returns each of its disks to its content when the snapshot was created,
      whatever writes, attachments, creates and restores came between, until it is deleted. */
  lemma RestoreReturnsContent(s: State, e: Event, es: seq<Event>, d: string, start: Option<bool>)
    requires Inv(s) && Enabled(s, e) && Creates(s, e) && d in s.disks
    requires Legal(Apply(s, e), es) && Delete(e.name) !in es
    ensures var later := Apply(After(Apply(s, e), es), Restore(e.name, start));
            d in later.disks && later.disks[d].content == s.disks[d].content
  {
    CreateSaves(s, e, d);
    StepKeepsInv(s, e);
    hide Inv, Saved, Creates, Apply, Legal, After;
    var snap := Snap(e.name, e.order);
    RunKeepsInv(Apply(s, e), es);
    RunKeepsSaved(Apply(s, e), es, snap, d, s.disks[d].content);
    SavedRestores(After(Apply(s, e), es), snap, d, s.disks[d].content, start);
  }

  // ----- each call by itself -----

  predicate LetterOrDigit(c: char) {
    97 <= c as int <= 122 || 65 <= c as int <= 90 || 48 <= c as int <= 57
  }

  /** One to sixty-four letters, digits, full stops (46), underscores (95) and hyphens (45), starting with a
      letter or digit. */
  predicate PromisedName(name: string) {
    && 0 < |name| < 65 && LetterOrDigit(name[0])
    && forall c | c in name :: LetterOrDigit(c) || c as int == 46 || c as int == 95 || c as int == 45
  }

  lemma PlainIff(name: string)
    ensures PlainName(name) <==> PromisedName(name)
  {
    assert forall c: char :: NameChar(c) <==> LetterOrDigit(c);
    hide NameChar, LetterOrDigit;
    if PlainName(name) {
      forall c | c in name
        ensures LetterOrDigit(c) || c as int == 46 || c as int == 95 || c as int == 45
      {
        var i :| 0 <= i < |name| && name[i] == c;
      }
    }
  }

  /** A name is accepted exactly when it is as promised, or so followed by one newline. */
  lemma NameIff(name: string)
    ensures ValidName(name) <==> PromisedName(name) || exists body: string :: name == body + "\n" && PromisedName(body)
  {
    PlainIff(name);
    if name != "" && name[|name| - 1] == '\n' {
      var body := name[..|name| - 1];
      PlainIff(body);
      assert name == body + "\n";
      assert forall other: string | name == other + "\n" :: other == body;
    }
    hide PlainName, PromisedName;
  }

  /** A create takes effect exactly with a new valid name, disks to take it of, and steps that all work: then
      every disk saves its content under the name and nothing else changes. Otherwise nothing does. */
  lemma CreateIff(s: State, name: string, order: seq<string>, works: bool)
    requires Enabled(s, Create(name, order, works))
    ensures var s' := Apply(s, Create(name, order, works));
            if works && ValidName(name) && s.disks != map[] && forall snap | snap in s.index :: snap.name != name then
              && s'.index == s.index + [Snap(name, order)] && s'.running == s.running
              && s'.disks.Keys == s.disks.Keys
              && forall d | d in s.disks ::
                   s'.disks[d] == Disk(s.disks[d].content, s.disks[d].snaps[name := s.disks[d].content])
            else s' == s
  {
    if snap :| snap in s.index && snap.name == name {
      var i :| 0 <= i < |s.index| && s.index[i] == snap;
    }
    if order != [] {
      assert order[0] in s.disks;
    }
    forall d | d in s.disks {
      TakenSnaps(s.disks, order, name, d);
    }
    hide ValidName;
  }

  /** A restore of a listed snapshot reverts its disks and sets the power as told, or leaves it; one of an
      unknown name changes nothing. */
  lemma RestoreMeaning(s: State, name: string, start: Option<bool>)
    requires Inv(s)
    ensures (forall snap | snap in s.index :: snap.name != name) ==> Apply(s, Restore(name, start)) == s
    ensures forall snap | snap in s.index && snap.name == name ::
              var s' := Apply(s, Restore(name, start));
              && s'.index == s.index && s'.running == (if start == None then s.running else start.value)
              && s'.disks.Keys == s.disks.Keys
              && forall d | d in s.disks ::
                   if d in snap.disks then name in s.disks[d].snaps
                                           && s'.disks[d] == Disk(s.disks[d].snaps[name], s.disks[d].snaps)
                   else s'.disks[d] == s.disks[d]
  {
    FindMeaning(s.index, name);
    if snap :| snap in s.index && snap.name == name {
      var i :| 0 <= i < |s.index| && s.index[i] == snap;
      var found := Find(s.index, name).value;
      forall other | other in s.index && other.name == name
        ensures other == found
      {
        SameSnap(s.index, found, other);
      }
      assert OnItsDisks(s.disks, found);
      OnEachMeaning(s.disks, found.disks, disk => Revert(disk, name));
    }
    hide OnEach, Find, Inv;
  }

  /** A delete of a listed snapshot of a stopped domain takes it off its disks and out of the index; one that
      finds the domain running, or no such name, changes nothing. */
  lemma DeleteMeaning(s: State, name: string)
    requires Inv(s)
    ensures s.running || (forall snap | snap in s.index :: snap.name != name) ==> Apply(s, Delete(name)) == s
    ensures forall snap | snap in s.index && snap.name == name && !s.running ::
              var s' := Apply(s, Delete(name));
              && !s'.running && s'.disks.Keys == s.disks.Keys
              && (forall other :: other in s'.index <==> other in s.index && other != snap)
              && forall d | d in s.disks ::
                   s'.disks[d] == if d in snap.disks then Disk(s.disks[d].content, s.disks[d].snaps - {name})
                                  else s.disks[d]
  {
    FindMeaning(s.index, name);
    if snap :| snap in s.index && snap.name == name {
      var i :| 0 <= i < |s.index| && s.index[i] == snap;
      var found := Find(s.index, name).value;
      forall other | other in s.index && other.name == name
        ensures other == found
      {
        SameSnap(s.index, found, other);
      }
      WithoutMeaning(s.index, name);
      OnEachMeaning(s.disks, found.disks, disk => Drop(disk, name));
    }
    hide OnEach, Find, Inv, Without;
  }

  lemma OneMore(s: State, e: Event, es: seq<Event>)
    requires Enabled(s, e) && Legal(Apply(s, e), es)
    ensures Legal(s, [e] + es) && After(s, [e] + es) == After(Apply(s, e), es)
  {
    hide Apply, Enabled;
    assert ([e] + es)[1..] == es;
  }

  /** Create, write over a disk, restore: such a run is possible from every state that admits the create, and
      it undoes the write on every disk. */
  lemma WriteUndone(s: State, name: string, order: seq<string>, d: string, content: seq<byte>)
    requires Inv(s) && Enabled(s, Create(name, order, true)) && d in s.disks
    requires ValidName(name) && forall snap | snap in s.index :: snap.name != name
    ensures var es := [Create(name, order, true)] + ([Write(d, content)] + ([Restore(name, None)] + []));
            && Legal(s, es)
            && forall e | e in s.disks ::
                 e in After(s, es).disks && After(s, es).disks[e].content == s.disks[e].content
  {
    var create, write, restore := Create(name, order, true), Write(d, content), Restore(name, None);
    CreateIff(s, name, order, true);
    assert Creates(s, create) && order[..] == order;
    var s1 := Apply(s, create);
    assert Enabled(s1, write) && Enabled(Apply(s1, write), restore);
    hide Inv, Apply, Enabled, Creates, ValidName;
    var s2 := Apply(s1, write);
    var s3 := Apply(s2, restore);
    assert Legal(s2, []) && After(s2, []) == s2 && Legal(s3, []) && After(s3, []) == s3;
    hide Legal, After;
    OneMore(s1, write, []);
    OneMore(s2, restore, []);
    OneMore(s1, write, [restore] + []);
    OneMore(s, create, [write] + ([restore] + []));
    assert Restore(name, None) == restore && [write] + [] == [write];
    forall e | e in s.disks
      ensures e in s3.disks && s3.disks[e].content == s.disks[e].content
    {
      RestoreReturnsContent(s, create, [write], e, None);
    }
  }

  // ----- the calls -----

  datatype Deletion = Deleted | NoSuchName | StillRunning

  class Instance {
    var disks: Disks
    var index: seq<Snap>
    var running: bool

    ghost function Value(): State
      reads this
    {
      State(disks, index, running)
    }

    constructor (disks: Disks)
      requires forall d | d in disks :: disks[d].snaps == map[]
      ensures Value() == State(disks, [], false) && Inv(Value())
    {
      this.disks, this.index, this.running := disks, [], false;
    }

    /** `create_snapshot`, where `ok` says which of the disks' own creates succeed. */
    method CreateSnapshot(name: string, order: seq<string>, ok: seq<bool>) returns (created: bool)
      requires Inv(Value()) && |ok| == |order|
      requires Enabled(Value(), Create(name, order, false !in ok))
      modifies this
      ensures Value() == Apply(old(Value()), Create(name, order, false !in ok))
      ensures created == Creates(old(Value()), Create(name, order, false !in ok))
    {
      if !ValidName(name) || HasName(index, name) || order == [] {
        return false;
      }
      FreshName(Value(), name);
      hide Inv, ValidName, HasName, OnEach;
      created := TakeAll(name, order, ok);
      if created {
        index := index + [Snap(name, order)];
      }
    }

    /** The loop over the disks. When one fails, the snapshots already made are deleted again. */
    method TakeAll(name: string, order: seq<string>, ok: seq<bool>) returns (all: bool)
      requires |ok| == |order| && Present(disks, order) && NoRepeats(order)
      requires forall d | d in disks :: name !in disks[d].snaps
      modifies this`disks
      ensures all == (false !in ok)
      ensures disks == if all then OnEach(old(disks), order, disk => Take(disk, name)) else old(disks)
    {
      hide OnEach;
      var take := (disk: Disk) => Take(disk, name);
      ghost var before := disks;
      OnNone(before, order, take);
      var i := 0;
      while i < |order|
        invariant 0 <= i <= |order|
        invariant disks == OnEach(before, order[..i], take)
        invariant forall j | 0 <= j < i :: ok[j]
      {
        if !ok[i] {
          assert false in ok;
          RollBack(name, order[..i], before);
          return false;
        }
        OnEachStep(before, order, i, take);
        disks := disks[order[i] := Take(disks[order[i]], name)];
        i := i + 1;
      }
      assert order[..|order|] == order;
      all := true;
    }

    /** `for d in done`: undoes the creates made so far. */
    method RollBack(name: string, done: seq<string>, ghost before: Disks)
      requires Present(before, done) && NoRepeats(done)
      requires forall d | d in before :: name !in before[d].snaps
      requires disks == OnEach(before, done, disk => Take(disk, name))
      modifies this`disks
      ensures disks == before
    {
      var i := 0;
      while i < |done|
        invariant 0 <= i <= |done|
        invariant disks.Keys == before.Keys
        invariant forall d | d in before :: disks[d] == if d in done[i..] then Take(before[d], name) else before[d]
      {
        var d := done[i];
        assert done[i..] == [d] + done[i + 1..];
        assert d !in done[i + 1..];
        TakeDrop(before[d], name);
        disks := disks[d := Drop(disks[d], name)];
        i := i + 1;
      }
    }

    /** `restore_snapshot`; false stands for the KeyError. */
    method RestoreSnapshot(name: string, start: Option<bool>) returns (found: bool)
      requires Inv(Value())
      modifies this`disks, this`running
      ensures Value() == Apply(old(Value()), Restore(name, start))
      ensures found == HasName(index, name)
    {
      FindMeaning(index, name);
      var snap := Find(index, name);
      if snap.None? {
        return false;
      }
      assert OnItsDisks(disks, snap.value);
      RevertAll(name, snap.value.disks);
      if start.Some? {
        running := start.value;
      }
      found := true;
    }

    method RevertAll(name: string, order: seq<string>)
      requires Present(disks, order) && NoRepeats(order)
      modifies this`disks
      ensures disks == OnEach(old(disks), order, disk => Revert(disk, name))
    {
      hide OnEach;
      var revert := (disk: Disk) => Revert(disk, name);
      ghost var before := disks;
      OnNone(before, order, revert);
      var i := 0;
      while i < |order|
        invariant 0 <= i <= |order|
        invariant disks == OnEach(before, order[..i], revert)
      {
        OnEachStep(before, order, i, revert);
        disks := disks[order[i] := Revert(disks[order[i]], name)];
        i := i + 1;
      }
      assert order[..|order|] == order;
    }

    /** `delete_snapshot`: an unknown name is a KeyError, a running domain a RuntimeError. */
    method DeleteSnapshot(name: string) returns (r: Deletion)
      requires Inv(Value())
      modifies this`disks, this`index
      ensures Value() == Apply(old(Value()), Delete(name))
      ensures r == if !HasName(old(index), name) then NoSuchName else if running then StillRunning else Deleted
    {
      FindMeaning(index, name);
      var snap := Find(index, name);
      if snap.None? {
        return NoSuchName;
      }
      if running {
        return StillRunning;
      }
      assert OnItsDisks(disks, snap.value);
      DropAll(name, snap.value.disks);
      index := Without(index, name);
      r := Deleted;
    }

    method DropAll(name: string, order: seq<string>)
      requires Present(disks, order) && NoRepeats(order)
      modifies this`disks
      ensures disks == OnEach(old(disks), order, disk => Drop(disk, name))
    {
      hide OnEach;
      var drop := (disk: Disk) => Drop(disk, name);
      ghost var before := disks;
      OnNone(before, order, drop);
      var i := 0;
      while i < |order|
        invariant 0 <= i <= |order|
        invariant disks == OnEach(before, order[..i], drop)
      {
        OnEachStep(before, order, i, drop);
        disks := disks[order[i] := Drop(disks[order[i]], name)];
        i := i + 1;
      }
      assert order[..|order|] == order;
    }
  }

  lemma OnNone(disks: Disks, names: seq<string>, f: Disk -> Disk)
    ensures OnEach(disks, names[..0], f) == disks
  {
  }

  lemma TakeDrop(disk: Disk, name: string)
    requires name !in disk.snaps
    ensures Drop(Take(disk, name), name) == disk
  {
    assert disk.snaps[name := disk.content] - {name} == disk.snaps;
  }

  /** A name the index does not have is on no disk. */
  lemma FreshName(s: State, name: string)
    requires Inv(s) && !HasName(s.index, name)
    ensures forall d | d in s.disks :: name !in s.disks[d].snaps
  {
  }
}
