/**
 The story index: the object that maps a documented component's path to the
 title of its story. Insertion overwrites (last write wins); iteration visits
 keys in the order they were first inserted, as a JavaScript object does.
 */
module StoryIndex {
  import opened UsageTree

  /**
   `order` lists the keys in first-insertion order, `titles` holds the
   mapping itself.
   */
  datatype Index = Index(order: seq<Path>, titles: map<Path, Title>)

  /** The key list has no repeats and lists exactly the mapped paths. */
  ghost predicate Valid(idx: Index) {
    && (forall i, j | 0 <= i < j < |idx.order| :: idx.order[i] != idx.order[j])
    && idx.titles.Keys == set p | p in idx.order
  }

  /** The index before any story has been read. */
  function Empty(): (r: Index)
    ensures Valid(r)
    ensures forall p :: SearchStory(r, p) == None
  {
    Index([], map[])
  }

  /** `searchStory`: the title stored for a path, if any. */
  function SearchStory(idx: Index, p: Path): (r: Option<Title>)
    ensures r.Some? <==> p in idx.titles
    ensures r.Some? ==> r.value in idx.titles.Values
  {
    if p in idx.titles then Some(idx.titles[p]) else None
  }

  /**
   JavaScript truthiness of a lookup result (`!!title`): a missing entry and
   an empty title both count as "not documented".
   */
  predicate Truthy(t: Option<Title>) {
    t.Some? && t.value != ""
  }

  /**
   `storiesComponents[p] = t`: overwrites any earlier title for `p`; a new
   key goes to the end of the iteration order, an existing key keeps its
   place.
   */
  function Insert(idx: Index, p: Path, t: Title): (r: Index)
    ensures SearchStory(r, p) == Some(t)
    ensures forall q | q != p :: SearchStory(r, q) == SearchStory(idx, q)
    ensures p in idx.titles ==> r.order == idx.order
    ensures p !in idx.titles ==> r.order == idx.order + [p]
    ensures Valid(idx) ==> Valid(r)
  {
    if p in idx.titles then Index(idx.order, idx.titles[p := t])
    else Index(idx.order + [p], idx.titles[p := t])
  }

  /**
   What processing one story file yields: the resolved component path and
   title, or a failure (unreadable file, metadata that cannot be
   extracted), which is reported and skipped.
   */
  datatype StoryEntry = Story(componentPath: Path, title: Title) | Unreadable(storyPath: Path)

  /** The entry is a readable story whose normalised component path is `p`. */
  predicate StoryAt(e: StoryEntry, ext: Path -> Path, p: Path) {
    e.Story? && ext(e.componentPath) == p
  }

  /**
   The loop that fills the index: every readable story is inserted under
   its component path normalised by `ext` (getComponentPathExtension);
   failed entries change nothing.
   */
  function BuildIndex(entries: seq<StoryEntry>, ext: Path -> Path): (r: Index)
    ensures Valid(r)
    decreases |entries|
  {
    if |entries| == 0 then Empty()
    else
      var prev := BuildIndex(entries[..|entries| - 1], ext);
      match entries[|entries| - 1]
      case Story(cp, t) => Insert(prev, ext(cp), t)
      case Unreadable(_) => prev
  }

  /** Inserting twice under one path keeps only the second title and leaves every other lookup and the key order as the first insertion left them. */
  lemma LastWriteWins(idx: Index, p: Path, t1: Title, t2: Title)
    ensures SearchStory(Insert(Insert(idx, p, t1), p, t2), p) == Some(t2)
    ensures forall q | q != p :: SearchStory(Insert(Insert(idx, p, t1), p, t2), q) == SearchStory(idx, q)
    ensures Insert(Insert(idx, p, t1), p, t2).order == Insert(idx, p, t1).order
  {
  }

  /**
   The built index maps `p` to the title of the LAST readable story whose
   component path normalises to `p`, and has no entry for `p` when there is
   no such story.
   */
  lemma {:induction false} BuildIndexLastWins(entries: seq<StoryEntry>, ext: Path -> Path, p: Path)
    ensures (forall i | 0 <= i < |entries| :: !StoryAt(entries[i], ext, p)) ==>
              SearchStory(BuildIndex(entries, ext), p) == None
    ensures forall i | 0 <= i < |entries| && StoryAt(entries[i], ext, p)
                       && (forall j | i < j < |entries| :: !StoryAt(entries[j], ext, p)) ::
              SearchStory(BuildIndex(entries, ext), p) == Some(entries[i].title)
    decreases |entries|
  {
    if |entries| > 0 {
      var n := |entries| - 1;
      var prefix := entries[..n];
      var r := BuildIndex(entries, ext);
      var r0 := BuildIndex(prefix, ext);
      BuildIndexLastWins(prefix, ext, p);
      assert r == (match entries[n]
                   case Story(cp, t) => Insert(r0, ext(cp), t)
                   case Unreadable(_) => r0);
      forall i | 0 <= i < |entries| && StoryAt(entries[i], ext, p)
                 && (forall j | i < j < |entries| :: !StoryAt(entries[j], ext, p))
        ensures SearchStory(r, p) == Some(entries[i].title)
      {
        if i == n {
          assert SearchStory(r, p) == Some(entries[n].title);
        } else {
          assert !StoryAt(entries[n], ext, p);
          assert SearchStory(r, p) == SearchStory(r0, p);
          assert prefix[i] == entries[i];
          assert forall j | i < j < n :: prefix[j] == entries[j];
        }
      }
      if forall i | 0 <= i < |entries| :: !StoryAt(entries[i], ext, p) {
        assert !StoryAt(entries[n], ext, p);
        assert SearchStory(r, p) == SearchStory(r0, p);
        assert forall i | 0 <= i < n :: prefix[i] == entries[i];
      }
    }
  }

  /** A path is a key of the built index exactly when some readable story normalises to it. */
  lemma {:induction false} BuildIndexKeys(entries: seq<StoryEntry>, ext: Path -> Path, p: Path)
    ensures p in BuildIndex(entries, ext).titles
            <==> exists i :: 0 <= i < |entries| && StoryAt(entries[i], ext, p)
    decreases |entries|
  {
    if |entries| > 0 {
      var n := |entries| - 1;
      var prefix := entries[..n];
      var r := BuildIndex(entries, ext);
      var r0 := BuildIndex(prefix, ext);
      BuildIndexKeys(prefix, ext, p);
      assert r == (match entries[n]
                   case Story(cp, t) => Insert(r0, ext(cp), t)
                   case Unreadable(_) => r0);
      if p in r.titles {
        if p in r0.titles {
          var i :| 0 <= i < n && StoryAt(prefix[i], ext, p);
          assert StoryAt(entries[i], ext, p);
        } else {
          assert StoryAt(entries[n], ext, p);
        }
      }
      if exists i :: 0 <= i < |entries| && StoryAt(entries[i], ext, p) {
        var i :| 0 <= i < |entries| && StoryAt(entries[i], ext, p);
        if i < n {
          assert StoryAt(prefix[i], ext, p);
          assert SearchStory(r0, p).Some?;
        }
        assert SearchStory(r, p).Some?;
      }
    }
  }

  /** `p` occurs strictly before `q` in `s`. */
  ghost predicate Precedes(s: seq<Path>, p: Path, q: Path) {
    exists a, b :: 0 <= a < b < |s| && s[a] == p && s[b] == q
  }

  /** One more entry only ever appends to the key order, and a new key goes last. */
  lemma BuildIndexExtends(entries: seq<StoryEntry>, ext: Path -> Path)
    requires |entries| > 0
    ensures BuildIndex(entries[..|entries| - 1], ext).order <= BuildIndex(entries, ext).order
    ensures var e := entries[|entries| - 1];
            var r0 := BuildIndex(entries[..|entries| - 1], ext);
            e.Story? && ext(e.componentPath) !in r0.titles ==>
              BuildIndex(entries, ext).order == r0.order + [ext(e.componentPath)]
  {
  }

  /** An order relation holds in every extension of the sequence. */
  lemma PrecedesExtends(s: seq<Path>, t: seq<Path>, p: Path, q: Path)
    requires s <= t && Precedes(s, p, q)
    ensures Precedes(t, p, q)
  {
    var a, b :| 0 <= a < b < |s| && s[a] == p && s[b] == q;
    assert t[a] == p && t[b] == q;
  }

  /**
   Keys are iterated in the order of their first readable story: when the
   first story for `q` comes after some story for `p`, then `p` comes
   before `q` in the index's key order.
   */
  lemma {:induction false} BuildIndexOrder(entries: seq<StoryEntry>, ext: Path -> Path, i: nat, j: nat)
    requires i < j < |entries|
    requires entries[i].Story? && entries[j].Story?
    requires forall k | 0 <= k < j :: !StoryAt(entries[k], ext, ext(entries[j].componentPath))
    ensures Precedes(BuildIndex(entries, ext).order,
                     ext(entries[i].componentPath), ext(entries[j].componentPath))
    decreases |entries|
  {
    var n := |entries| - 1;
    var prefix := entries[..n];
    var p := ext(entries[i].componentPath);
    var q := ext(entries[j].componentPath);
    var r0 := BuildIndex(prefix, ext);
    BuildIndexExtends(entries, ext);
    if j < n {
      assert prefix[i] == entries[i] && prefix[j] == entries[j];
      assert forall k | 0 <= k < j :: prefix[k] == entries[k];
      BuildIndexOrder(prefix, ext, i, j);
      PrecedesExtends(r0.order, BuildIndex(entries, ext).order, p, q);
    } else {
      assert q !in r0.titles by {
        assert forall k | 0 <= k < n :: prefix[k] == entries[k];
        BuildIndexKeys(prefix, ext, q);
      }
      assert p in r0.titles by {
        assert StoryAt(prefix[i], ext, p);
        BuildIndexKeys(prefix, ext, p);
      }
      var a :| 0 <= a < |r0.order| && r0.order[a] == p;
      var r := BuildIndex(entries, ext);
      assert r.order[a] == p && r.order[|r0.order|] == q;
    }
  }
}
