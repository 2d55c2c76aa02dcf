/** The tag index `tagged/<tag>/<link>` as a map from tag directory name to
    the set of link names in it, and the closed forms of what tagging and
    untagging one record does to it. */
module TagIndex {
  import opened Common
  import opened Strings

  type TagMap = map<string, set<string>>

  /** A tag name that stands for exactly one directory below tagged/: not empty,
      one path element, not "." or "..". */
  predicate PlainTag(t: string) {
    t != "" && t != "." && t != ".." && '/' !in t
  }

  /** The directory of tag `t` holds a link named `link`. */
  predicate Holds(m: TagMap, t: string, link: string) {
    t in m && link in m[t]
  }

  /** The tag index of a consistent repository: no tag directory is empty,
      every link names an existing record file, tag names are trimmed plain
      names. */
  ghost predicate Consistent(files: set<string>, m: TagMap) {
    forall t :: t in m ==> m[t] != {} && m[t] <= files && PlainTag(t) && TrimSpace(t) == t
  }

  /** The trimmed names of a tag list. */
  function Trimmed(tags: seq<string>): (r: set<string>)
    ensures forall i :: 0 <= i < |tags| ==> TrimSpace(tags[i]) in r
    decreases |tags|
  {
    if |tags| == 0 then {}
    else
      assert forall i :: 0 <= i < |tags| - 1 ==> tags[..|tags| - 1][i] == tags[i];
      Trimmed(tags[..|tags| - 1]) + {TrimSpace(tags[|tags| - 1])}
  }

  /** Trimmed holds nothing but trimmed tags: the tag loops visit exactly its
      elements. */
  lemma {:induction false} TrimmedOnly(tags: seq<string>, t: string)
    requires t in Trimmed(tags)
    ensures exists i :: 0 <= i < |tags| && TrimSpace(tags[i]) == t
    decreases |tags|
  {
    var n := |tags| - 1;
    if t != TrimSpace(tags[n]) {
      var init := tags[..n];
      TrimmedOnly(init, t);
      var i :| 0 <= i < |init| && TrimSpace(init[i]) == t;
      assert tags[i] == init[i];
    }
  }

  lemma {:induction false} TrimmedPlain(tags: seq<string>)
    requires forall i :: 0 <= i < |tags| ==> PlainTag(TrimSpace(tags[i]))
    ensures forall t :: t in Trimmed(tags) ==> PlainTag(t) && TrimSpace(t) == t
    decreases |tags|
  {
    if |tags| > 0 {
      var init := tags[..|tags| - 1];
      assert forall i :: 0 <= i < |init| ==> init[i] == tags[i];
      TrimmedPlain(init);
      TrimSpaceIdempotent(tags[|tags| - 1]);
    }
  }

  /** Tagging: every tag in `ts` gets a directory (if it has none) holding
      `link`; nothing else changes. */
  function WithTags(m: TagMap, ts: set<string>, link: string): (r: TagMap)
    ensures r.Keys == m.Keys + ts
    ensures forall t, x :: Holds(r, t, x) <==> Holds(m, t, x) || (t in ts && x == link)
  {
    map t | t in m.Keys + ts :: (if t in m then m[t] else {}) + (if t in ts then {link} else {})
  }

  /** Untagging: `link` leaves the directory of every tag in `ts`, and a
      directory left empty is removed; nothing else changes. */
  function WithoutTags(m: TagMap, ts: set<string>, link: string): (r: TagMap)
    ensures forall t :: t in r <==> t in m && !(t in ts && m[t] <= {link})
    ensures forall t, x :: Holds(r, t, x) <==> Holds(m, t, x) && !(t in ts && x == link)
  {
    var r := map t | t in m && !(t in ts && m[t] - {link} == {}) :: if t in ts then m[t] - {link} else m[t];
    assert forall t :: t in m ==> (m[t] - {link} == {} <==> m[t] <= {link});
    r
  }

  /** Tagging in two steps is tagging with the union; in particular tagging
      twice with the same tags is tagging once. */
  lemma WithTagsCompose(m: TagMap, a: set<string>, b: set<string>, link: string)
    ensures WithTags(WithTags(m, a, link), b, link) == WithTags(m, a + b, link)
  {
    var l, r := WithTags(WithTags(m, a, link), b, link), WithTags(m, a + b, link);
    forall t | t in l ensures l[t] == r[t] {
      forall x ensures x in l[t] <==> x in r[t] {
        assert Holds(l, t, x) <==> Holds(r, t, x);
      }
    }
  }

  lemma WithTagsIdempotent(m: TagMap, ts: set<string>, link: string)
    ensures WithTags(WithTags(m, ts, link), ts, link) == WithTags(m, ts, link)
  {
    WithTagsCompose(m, ts, ts, link);
    assert ts + ts == ts;
  }

  lemma WithTagsNone(m: TagMap, link: string)
    ensures WithTags(m, {}, link) == m
  {
    var r := WithTags(m, {}, link);
    forall t | t in m ensures r[t] == m[t] {
      assert r[t] == m[t] + {};
    }
  }

  /** Untagging in two steps is untagging with the union. */
  lemma WithoutTagsCompose(m: TagMap, a: set<string>, b: set<string>, link: string)
    ensures WithoutTags(WithoutTags(m, a, link), b, link) == WithoutTags(m, a + b, link)
  {
    var l, r := WithoutTags(WithoutTags(m, a, link), b, link), WithoutTags(m, a + b, link);
    forall t | t in l ensures l[t] == r[t] {
      forall x ensures x in l[t] <==> x in r[t] {
        assert Holds(l, t, x) <==> Holds(r, t, x);
      }
    }
  }

  lemma WithoutTagsNone(m: TagMap, link: string)
    ensures WithoutTags(m, {}, link) == m
  {
  }

  /** Tagging keeps the tag index consistent when the link names an existing
      record and the tags are trimmed plain names. */
  lemma WithTagsConsistent(files: set<string>, m: TagMap, ts: set<string>, link: string)
    requires Consistent(files, m) && link in files
    requires forall t :: t in ts ==> PlainTag(t) && TrimSpace(t) == t
    ensures Consistent(files, WithTags(m, ts, link))
  {
    var r := WithTags(m, ts, link);
    forall t | t in r ensures r[t] != {} && r[t] <= files && PlainTag(t) && TrimSpace(t) == t {
      var old_t := if t in m then m[t] else {};
      var new_t := if t in ts then {link} else {};
      assert r[t] == old_t + new_t;
      assert old_t <= files;
      assert t in ts || t in m;
    }
  }

  /** Untagging keeps the tag index consistent. */
  lemma WithoutTagsConsistent(files: set<string>, m: TagMap, ts: set<string>, link: string)
    requires Consistent(files, m)
    ensures Consistent(files, WithoutTags(m, ts, link))
  {
    var r := WithoutTags(m, ts, link);
    forall t | t in r ensures r[t] != {} && r[t] <= files {
      assert !(t in ts && m[t] <= {link});
      if t in ts {
        var x :| x in m[t] && x != link;
        assert Holds(r, t, x);
      }
      assert forall x :: x in r[t] ==> Holds(m, t, x);
    }
  }

  /** A tag index consistent with some records stays consistent when records
      are added. */
  lemma ConsistentGrow(files: set<string>, more: set<string>, m: TagMap)
    requires Consistent(files, m) && files <= more
    ensures Consistent(more, m)
  {
  }

  /** Untagging a record from every tag leaves an index consistent with the
      record file gone. */
  lemma RemoveLinkConsistent(files: set<string>, m: TagMap, link: string)
    requires Consistent(files, m)
    ensures Consistent(files - {link}, WithoutTags(m, m.Keys, link))
  {
    WithoutTagsConsistent(files, m, m.Keys, link);
    var r := WithoutTags(m, m.Keys, link);
    forall t | t in r ensures r[t] <= files - {link} {
      assert !Holds(r, t, link);
    }
  }

  /** Untagging from a set of tags that covers every tag holding the link is
      untagging from all tags: the others are left alone. */
  lemma WithoutTagsCovering(m: TagMap, ts: set<string>, link: string)
    requires forall t :: t in m ==> m[t] != {}
    requires forall t :: Holds(m, t, link) ==> t in ts
    ensures WithoutTags(m, ts, link) == WithoutTags(m, m.Keys, link)
  {
    var l, r := WithoutTags(m, ts, link), WithoutTags(m, m.Keys, link);
    forall t ensures t in l <==> t in r {
      if t in m && !Holds(m, t, link) {
        var x :| x in m[t];
      }
    }
    forall t | t in l ensures l[t] == r[t] {
      forall x ensures x in l[t] <==> x in r[t] {
        assert Holds(l, t, x) <==> Holds(r, t, x);
      }
    }
  }

  /** Untag undoes Tag for tags whose directories did not already hold the
      link: in particular a tag directory created by Tag is removed again. */
  lemma UntagUndoesTag(m: TagMap, ts: set<string>, link: string)
    requires forall t :: t in m ==> m[t] != {}
    requires forall t :: t in ts ==> !Holds(m, t, link)
    ensures WithoutTags(WithTags(m, ts, link), ts, link) == m
  {
    var w := WithTags(m, ts, link);
    var r := WithoutTags(w, ts, link);
    forall t ensures t in r <==> t in m {
      if t in m && t in ts {
        var x :| x in m[t];
        assert x != link;
        assert Holds(w, t, x);
      }
      if t in ts && t !in m {
        assert forall x :: x in w[t] ==> x == link;
      }
    }
    forall t | t in r ensures r[t] == m[t] {
      forall x ensures x in r[t] <==> x in m[t] {
        assert Holds(r, t, x) <==> Holds(m, t, x);
      }
    }
  }

  /** One iteration of Tag's loop for the tag `t`: create the tag directory
      unless it exists, then place the link, an existing link being no
      error. */
  function TagOnce(m: TagMap, t: string, link: string): TagMap {
    var m1 := if t in m then m else m[t := {}];
    m1[t := m1[t] + {link}]
  }

  /** One iteration of Untag's loop for the tag `t`: remove the link if the
      tag directory holds it, then remove the directory if it is empty. */
  function UntagOnce(m: TagMap, t: string, link: string): TagMap {
    var m1 := if Holds(m, t, link) then m[t := m[t] - {link}] else m;
    if t in m1 && m1[t] == {} then m1 - {t} else m1
  }

  /** One iteration of Tag's loop is tagging with that one tag. */
  lemma TagStep(m: TagMap, t: string, link: string)
    ensures TagOnce(m, t, link) == WithTags(m, {t}, link)
  {
    var l, r := TagOnce(m, t, link), WithTags(m, {t}, link);
    forall u | u in l ensures l[u] == r[u] {
      forall x ensures x in l[u] <==> x in r[u] {
        assert Holds(l, u, x) <==> Holds(r, u, x);
      }
    }
  }

  /** One iteration of Untag's loop is untagging with that one tag. */
  lemma UntagStep(m: TagMap, t: string, link: string)
    ensures UntagOnce(m, t, link) == WithoutTags(m, {t}, link)
  {
    var m1 := if Holds(m, t, link) then m[t := m[t] - {link}] else m;
    var l := UntagOnce(m, t, link);
    var r := WithoutTags(m, {t}, link);
    if t in m {
      assert m1[t] == m[t] - {link};
      assert m1[t] == {} <==> m[t] <= {link};
    }
    forall u ensures u in l <==> u in r {
    }
    forall u | u in l ensures l[u] == r[u] {
      forall x ensures x in l[u] <==> x in r[u] {
        assert Holds(l, u, x) <==> Holds(r, u, x);
      }
    }
  }

  /** The names Trimmed collects from a prefix grow by one name per element. */
  lemma TrimmedStep(tags: seq<string>, i: nat)
    requires i < |tags|
    ensures Trimmed(tags[..i + 1]) == Trimmed(tags[..i]) + {TrimSpace(tags[i])}
  {
    assert tags[..i + 1][..i] == tags[..i];
  }

  /** Tag's loop, iteration `i`: having tagged with the trimmed names of
      tags[..i], the next iteration tags with those of tags[..i + 1]. */
  lemma TagPrefixStep(m0: TagMap, tags: seq<string>, i: nat, m: TagMap, link: string)
    requires i < |tags| && m == WithTags(m0, Trimmed(tags[..i]), link)
    ensures TagOnce(m, TrimSpace(tags[i]), link) == WithTags(m0, Trimmed(tags[..i + 1]), link)
  {
    TagStep(m, TrimSpace(tags[i]), link);
    TrimmedStep(tags, i);
    WithTagsCompose(m0, Trimmed(tags[..i]), {TrimSpace(tags[i])}, link);
  }

  /** Untag's loop, iteration `i`, likewise. */
  lemma UntagPrefixStep(m0: TagMap, tags: seq<string>, i: nat, m: TagMap, link: string)
    requires i < |tags| && m == WithoutTags(m0, Trimmed(tags[..i]), link)
    ensures UntagOnce(m, TrimSpace(tags[i]), link) == WithoutTags(m0, Trimmed(tags[..i + 1]), link)
  {
    UntagStep(m, TrimSpace(tags[i]), link);
    TrimmedStep(tags, i);
    WithoutTagsCompose(m0, Trimmed(tags[..i]), {TrimSpace(tags[i])}, link);
  }

  /** The loop of Tag over the tag index `m0`: for every tag, check that the
      record exists, create the tag directory unless it exists (which fails
      without tagged/), and place the link. `recordExists` and `taggedExists`
      are what the checks find; nothing in the loop changes them. The engine
      supplies its own error values for a missing record and a failed Mkdir. */
  method TagLinks<E(==)>(m0: TagMap, tags: seq<string>, link: string, recordExists: bool, taggedExists: bool,
                         idNotExists: E, mkdirFailed: E)
    returns (err: Option<E>, m: TagMap)
    ensures err == (if |tags| == 0 then None
                    else if !recordExists then Some(idNotExists)
                    else if !taggedExists then Some(mkdirFailed)
                    else None)
    ensures m == (if err == None then WithTags(m0, Trimmed(tags), link) else m0)
  {
    m := m0;
    WithTagsNone(m0, link);
    assert tags[..0] == [];
    var i := 0;
    while i < |tags|
      invariant 0 <= i <= |tags|
      invariant i > 0 ==> recordExists && taggedExists
      invariant i == 0 ==> m == m0
      invariant m == WithTags(m0, Trimmed(tags[..i]), link)
    {
      var tag := TrimSpace(tags[i]);
      if !recordExists {
        return Some(idNotExists), m;
      }
      if !taggedExists {
        // os.Mkdir below a missing tagged/
        return Some(mkdirFailed), m;
      }
      TagPrefixStep(m0, tags, i, m, link);
      ghost var before := m;
      if tag !in m {
        m := m[tag := {}];
      }
      m := m[tag := m[tag] + {link}];
      assert m == TagOnce(before, tag, link);
      i := i + 1;
    }
    assert tags[..|tags|] == tags;
    return None, m;
  }

  /** The loop of Untag over the tag index `m0`: for every tag, check that the
      record exists, remove the link if the tag directory holds it, and remove
      the directory if that left it empty. */
  method UntagLinks<E(==)>(m0: TagMap, tags: seq<string>, link: string, recordExists: bool, idNotExists: E)
    returns (err: Option<E>, m: TagMap)
    ensures err == (if |tags| > 0 && !recordExists then Some(idNotExists) else None)
    ensures m == (if err == None then WithoutTags(m0, Trimmed(tags), link) else m0)
  {
    m := m0;
    WithoutTagsNone(m0, link);
    assert tags[..0] == [];
    var i := 0;
    while i < |tags|
      invariant 0 <= i <= |tags|
      invariant i > 0 ==> recordExists
      invariant i == 0 ==> m == m0
      invariant m == WithoutTags(m0, Trimmed(tags[..i]), link)
    {
      var tag := TrimSpace(tags[i]);
      if !recordExists {
        return Some(idNotExists), m;
      }
      UntagPrefixStep(m0, tags, i, m, link);
      ghost var before := m;
      if tag in m && link in m[tag] {
        m := m[tag := m[tag] - {link}];
      }
      if tag in m && m[tag] == {} {
        m := m - {tag};
      }
      assert m == UntagOnce(before, tag, link);
      i := i + 1;
    }
    assert tags[..|tags|] == tags;
    return None, m;
  }
}
