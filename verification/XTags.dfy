/**
 The list of extra header tags (yuv4mpeg.c): a fixed table of buffers that the list owns and
 recycles.  Every operation refines the same operation on a sequence of strings, and keeps the
 buffers owned: none is lost, and none is shared between two slots.
 */
module XTags {
  const MAX_XTAGS := 32
  const MAX_XTAG_SIZE := 32

  const Y4M_OK := 0
  const Y4M_ERR_RANGE := 1
  const Y4M_ERR_XXTAGS := 7

  /** strncpy into a tag buffer keeps this much of a tag. */
  function Stored(tag: string): string {
    if |tag| <= MAX_XTAG_SIZE then tag else tag[..MAX_XTAG_SIZE]
  }

  type TagText = s: string | |s| <= MAX_XTAG_SIZE

  class TagBuffer {
    var text: TagText

    constructor (text: TagText)
      ensures this.text == text
    {
      this.text := text;
    }
  }

  ghost function Buffers(slots: seq<TagBuffer?>): set<object> {
    set i | 0 <= i < |slots| && slots[i] != null :: slots[i]
  }

  /** No buffer stands in two slots. */
  ghost predicate NoSharing(slots: seq<TagBuffer?>) {
    forall i, j :: 0 <= i < j < |slots| && slots[i] != null ==> slots[i] != slots[j]
  }

  class TagList {
    var count: int
    const tags: array<TagBuffer?>

    /** The buffers the list owns: those in its slots, used or kept for later. */
    ghost function Owned(): set<object>
      reads this, tags
    {
      Buffers(tags[..])
    }

    ghost function Repr(): set<object>
      reads this, tags
    {
      Owned() + {this, tags}
    }

    ghost predicate Valid()
      reads this, tags
    {
      && tags.Length == MAX_XTAGS
      && 0 <= count <= MAX_XTAGS
      && (forall i :: 0 <= i < count ==> tags[i] != null)
      && NoSharing(tags[..])
    }

    ghost function Contents(): (c: seq<string>)
      requires Valid()
      reads this, tags, Owned()
      ensures |c| == count
    {
      seq(count, i requires Valid() && 0 <= i < count reads this, tags, Owned() => tags[i].text)
    }

    /** y4m_init_xtag_list */
    constructor ()
      ensures Valid() && Contents() == [] && fresh(Repr())
    {
      count := 0;
      tags := new TagBuffer?[MAX_XTAGS](_ => null);
    }

    /** y4m_xtag_clearlist */
    method Clear()
      requires Valid()
      modifies this
      ensures Valid() && Contents() == [] && Owned() == old(Owned())
    {
      count := 0;
    }

    /** y4m_xtag_get; C's NULL is an empty option here */
    method Get(n: int) returns (tag: TagBuffer?)
      requires Valid() && 0 <= n
      ensures tag != null <==> n < count
      ensures tag != null ==> tag in Owned() && tag.text == Contents()[n]
    {
      if n >= count {
        tag := null;
      } else {
        tag := tags[n];
      }
    }

    /** The slot at `i` holds a buffer with the stored form of `tag`. */
    method Fill(i: int, tag: string)
      requires Valid() && 0 <= i < MAX_XTAGS
      modifies tags, Owned()
      ensures Valid() && tags[i] != null && tags[i].text == Stored(tag)
      ensures forall k :: 0 <= k < MAX_XTAGS && k != i ==> tags[k] == old(tags[k])
      ensures forall k :: 0 <= k < MAX_XTAGS && k != i && tags[k] != null ==> tags[k].text == old(tags[k].text)
      ensures old(tags[i]) != null ==> tags[i] == old(tags[i])
      ensures fresh(Owned() - old(Owned())) && old(Owned()) <= Owned()
      ensures Contents() == if i < count then old(Contents())[i := Stored(tag)] else old(Contents())
    {
      if tags[i] == null {
        var buffer := new TagBuffer("");
        tags[i] := buffer;
      }
      tags[i].text := Stored(tag);
    }

    /** y4m_xtag_add */
    method Add(tag: string) returns (ret: int)
      requires Valid()
      modifies Repr()
      ensures Valid() && fresh(Owned() - old(Owned())) && old(Owned()) <= Owned()
      ensures ret == if |old(Contents())| >= MAX_XTAGS then Y4M_ERR_XXTAGS else Y4M_OK
      ensures Contents() == if ret == Y4M_OK then old(Contents()) + [Stored(tag)] else old(Contents())
    {
      if count >= MAX_XTAGS {
        return Y4M_ERR_XXTAGS;
      }
      Fill(count, tag);
      count := count + 1;
      return Y4M_OK;
    }

    /** y4m_xtag_remove: closes the gap and keeps the freed buffer in the slot behind the list */
    method Remove(n: int) returns (ret: int)
      requires Valid()
      modifies this, tags
      ensures Valid() && Owned() == old(Owned())
      ensures multiset(tags[..]) == old(multiset(tags[..]))
      ensures ret == if 0 <= n < |old(Contents())| then Y4M_OK else Y4M_ERR_RANGE
      ensures Contents() ==
              if ret == Y4M_OK then old(Contents())[..n] + old(Contents())[n + 1..] else old(Contents())
    {
      if n < 0 || n >= count {
        return Y4M_ERR_RANGE;
      }
      ghost var was, before := tags[..], Contents();
      MoveToEnd(n);
      MovedKeepsBuffers(was, n, count - 1, tags[..]);
      count := count - 1;
      RemovedTexts(before, was, n);
      return Y4M_OK;
    }

    /** y4m_copy_xtag_list */
    method Copy(src: TagList)
      requires Valid() && src.Valid() && Repr() !! src.Repr()
      modifies Repr()
      ensures Valid() && fresh(Owned() - old(Owned())) && old(Owned()) <= Owned()
      ensures Contents() == src.Contents() == old(src.Contents())
    {
      ghost var wanted := src.Contents();
      var i := 0;
      while i < src.count
        invariant 0 <= i <= src.count == |wanted|
        invariant Valid() && src.Valid() && src.Contents() == wanted
        invariant fresh(Owned() - old(Owned())) && old(Owned()) <= Owned()
        invariant forall k :: 0 <= k < i ==> tags[k] != null && tags[k].text == wanted[k]
      {
        assert src.tags[i].text == wanted[i];
        Fill(i, src.tags[i].text);
        i := i + 1;
      }
      count := src.count;
    }

    /** The loop of y4m_xtag_addlist, which stops where C would copy from a null pointer. */
    method FillFrom(src: TagList) returns (fault: bool)
      requires Valid() && src.Valid() && Repr() !! src.Repr() && count + src.count <= MAX_XTAGS
      modifies tags, Owned()
      ensures Valid() && fresh(Owned() - old(Owned())) && old(Owned()) <= Owned()
      ensures Contents() == old(Contents())
      ensures fault ==> SomeSlotEmpty(src, count, count + src.count)
      ensures !fault ==> forall k :: count <= k < count + src.count ==>
                           tags[k] != null && src.tags[k] != null && tags[k].text == src.tags[k].text
    {
      var i, j := count, 0;
      while j < src.count
        invariant 0 <= j <= src.count && i == count + j
        invariant Valid() && src.Valid() && Contents() == old(Contents())
        invariant fresh(Owned() - old(Owned())) && old(Owned()) <= Owned()
        invariant forall k :: count <= k < i ==>
                    tags[k] != null && src.tags[k] != null && tags[k].text == src.tags[k].text
      {
        if src.tags[i] == null {
          return true;
        }
        Fill(i, src.tags[i].text);
        i, j := i + 1, j + 1;
      }
      return false;
    }

    ghost predicate HasAt(k: int, text: string)
      requires tags.Length == MAX_XTAGS
      reads this, tags, Owned()
    {
      0 <= k < MAX_XTAGS && tags[k] != null && tags[k].text == text
    }

    /** The slots from `n` on hold the texts of the list. */
    ghost predicate RepeatsFrom(n: int)
      requires Valid()
      reads this, tags, Owned()
    {
      forall j :: 0 <= j < count ==> HasAt(n + j, Contents()[j])
    }

    lemma EmptySlotIsNoRepeat(n: nat)
      requires Valid() && n + count <= MAX_XTAGS && exists k :: n <= k < n + count && tags[k] == null
      ensures !RepeatsFrom(n)
    {
      var k :| n <= k < n + count && tags[k] == null;
      assert !HasAt(n + (k - n), Contents()[k - n]);
    }

    ghost predicate SomeSlotEmpty(src: TagList, from: nat, to: nat)
      requires src.tags.Length == MAX_XTAGS && to <= MAX_XTAGS
      reads src.tags
    {
      exists k :: from <= k < to && src.tags[k] == null
    }

    /**
     y4m_xtag_addlist as it is written: slot `i` of the destination is filled from slot `i`, not
     slot `j`, of the source.  `fault` is set where C would copy from a null pointer.  The list is
     appended where one of the two is empty; otherwise the source's slots behind the first |old| are
     taken, buffers it keeps for later among them, and without such a buffer the copy faults.  So the
     lists are appended if and only if those slots hold the texts of the first ones.
     */
    method AddList(src: TagList) returns (ret: int, fault: bool)
      requires Valid() && src.Valid() && Repr() !! src.Repr()
      modifies Repr()
      ensures Valid() && fresh(Owned() - old(Owned())) && old(Owned()) <= Owned()
      ensures src.Contents() == old(src.Contents())
      ensures ret == Y4M_ERR_XXTAGS <==> |old(Contents())| + |src.Contents()| > MAX_XTAGS
      ensures ret == Y4M_ERR_XXTAGS ==> !fault && Contents() == old(Contents())
      ensures ret != Y4M_ERR_XXTAGS && (old(Contents()) == [] || src.Contents() == []) ==>
                ret == Y4M_OK && !fault && Contents() == old(Contents()) + src.Contents()
      ensures ret != Y4M_ERR_XXTAGS && old(Contents()) != [] && src.Contents() != [] && !src.HasSpare() ==> fault
      ensures ret != Y4M_ERR_XXTAGS && fault ==> SomeSlotEmpty(src, old(count), old(count) + src.count)
      ensures ret == Y4M_OK && !fault ==>
                && |Contents()| == old(count) + src.count && Contents()[..old(count)] == old(Contents())
                && forall k :: old(count) <= k < |Contents()| ==>
                     src.tags[k] != null && Contents()[k] == src.tags[k].text
      ensures ret != Y4M_ERR_XXTAGS ==>
                (!fault && Contents() == old(Contents()) + src.Contents() <==> src.RepeatsFrom(old(count)))
    {
      hide RepeatsFrom, HasAt;
      if count + src.count > MAX_XTAGS {
        return Y4M_ERR_XXTAGS, false;
      }
      ghost var mine, wanted := Contents(), src.Contents();
      ret := Y4M_OK;
      fault := FillFrom(src);
      if fault {
        src.EmptySlotIsNoRepeat(count);
        return;
      }
      SpareBehind(src, count);
      assert Contents()[..count] == mine;
      ghost var n := count;
      count := count + src.count;
      assert Contents()[..n] == mine;
      AppendedIff(src, mine, wanted, n);
    }

    /** Buffers where the loop looks for them, behind a list that is not empty, lie behind the source's list too. */
    lemma SpareBehind(src: TagList, n: nat)
      requires src.Valid() && n + src.count <= MAX_XTAGS
      requires forall k :: n <= k < n + src.count ==> src.tags[k] != null
      ensures n > 0 && src.count > 0 ==> src.HasSpare()
    {
      if n > 0 && src.count > 0 {
        assert src.tags[if n > src.count then n else src.count] != null;
      }
    }

    lemma AppendedIff(src: TagList, mine: seq<string>, wanted: seq<string>, n: nat)
      requires Valid() && src.Valid() && wanted == src.Contents() && n == |mine| && count == n + src.count
      requires Contents()[..n] == mine
      requires forall k :: n <= k < count ==> src.tags[k] != null && tags[k].text == src.tags[k].text
      ensures Contents() == mine + wanted <==> src.RepeatsFrom(n)
      ensures n == 0 || src.count == 0 ==> Contents() == mine + wanted
      ensures forall k :: n <= k < count ==> Contents()[k] == src.tags[k].text
    {
      if Contents() == mine + wanted {
        forall j | 0 <= j < src.count ensures src.HasAt(n + j, wanted[j]) {
          assert Contents()[n + j] == wanted[j];
        }
      }
      if src.RepeatsFrom(n) {
        forall k | n <= k < count ensures Contents()[k] == wanted[k - n] {
          assert src.HasAt(n + (k - n), wanted[k - n]);
        }
      }
    }

    /** Some slot behind the list still holds a buffer from an earlier, longer list. */
    ghost predicate HasSpare()
      requires tags.Length == MAX_XTAGS
      reads this, tags
    {
      exists i :: 0 <= i < MAX_XTAGS && i >= count && tags[i] != null
    }

    /** The loop of y4m_xtag_remove: the buffer at `n` moves behind the others in use. */
    method MoveToEnd(n: int)
      requires tags.Length == MAX_XTAGS && 0 <= n < count <= MAX_XTAGS
      modifies tags
      ensures Moved(old(tags[..]), n, count - 1, tags[..])
    {
      ghost var was := tags[..];
      var q := tags[n];
      var i := n;
      while i < count - 1
        invariant n <= i <= count - 1
        invariant forall k {:trigger tags[k]} :: 0 <= k < MAX_XTAGS ==>
                    tags[k] == if n <= k < i then was[k + 1] else was[k]
      {
        tags[i] := tags[i + 1];
        i := i + 1;
      }
      tags[i] := q;
    }

    /** The texts after a removal, slot by slot, make up the sequence without element `n`. */
    lemma RemovedTexts(before: seq<string>, was: seq<TagBuffer?>, n: int)
      requires Valid() && |before| == count + 1 <= |was| && 0 <= n <= count
      requires forall k :: 0 <= k < |before| ==> was[k] != null && was[k].text == before[k]
      requires Moved(was, n, count, tags[..])
      ensures Contents() == before[..n] + before[n + 1..]
    {
      forall k | 0 <= k < count ensures tags[k] == was[if k < n then k else k + 1] {
        assert tags[k] == tags[..][k];
      }
    }
  }

  /** Where the element at `k` came from. */
  ghost function Origin(n: int, i: int, k: int): int {
    if n <= k < i then k + 1 else if k == i then n else k
  }

  /** `r` is `s` with the element at `n` moved to `i`, slot by slot. */
  ghost predicate Moved<T>(s: seq<T>, n: int, i: int, r: seq<T>) {
    && 0 <= n <= i < |s| == |r|
    && forall k {:trigger r[k]} :: 0 <= k < |s| ==> r[k] == s[Origin(n, i, k)]
  }

  /** `s` with the element at `n` taken out and put back at `i`. */
  ghost function Shifted<T>(s: seq<T>, n: int, i: int): (r: seq<T>)
    requires 0 <= n <= i < |s|
    ensures |r| == |s|
  {
    s[..n] + s[n + 1..i + 1] + [s[n]] + s[i + 1..]
  }

  lemma ShiftedAt<T>(s: seq<T>, n: int, i: int, k: int)
    requires 0 <= n <= i < |s| && 0 <= k < |s|
    ensures Shifted(s, n, i)[k] == if n <= k < i then s[k + 1] else if k == i then s[n] else s[k]
  {
  }

  lemma ShiftedIs<T>(s: seq<T>, n: int, i: int, r: seq<T>)
    requires 0 <= n <= i < |s| == |r|
    requires Moved(s, n, i, r)
    ensures r == Shifted(s, n, i)
  {
    forall k | 0 <= k < |s| ensures r[k] == Shifted(s, n, i)[k] {
      ShiftedAt(s, n, i, k);
    }
  }

  lemma MovedKeepsBuffers(s: seq<TagBuffer?>, n: int, i: int, r: seq<TagBuffer?>)
    requires 0 <= n <= i < |s| == |r| && NoSharing(s)
    requires Moved(s, n, i, r)
    ensures NoSharing(r) && Buffers(r) == Buffers(s) && multiset(r) == multiset(s)
  {
    ShiftedIs(s, n, i, r);
    ShiftedIsPermutation(s, n, i);
    ShiftedKeepsBuffers(s, n, i);
  }

  lemma ShiftedIsPermutation<T>(s: seq<T>, n: int, i: int)
    requires 0 <= n <= i < |s|
    ensures multiset(Shifted(s, n, i)) == multiset(s)
  {
    assert s == s[..n] + [s[n]] + s[n + 1..i + 1] + s[i + 1..];
  }

  lemma ShiftedKeepsBuffers(s: seq<TagBuffer?>, n: int, i: int)
    requires 0 <= n <= i < |s| && NoSharing(s)
    ensures NoSharing(Shifted(s, n, i)) && Buffers(Shifted(s, n, i)) == Buffers(s)
  {
    var r := Shifted(s, n, i);
    forall k | 0 <= k < |s| ensures r[k] == s[Origin(n, i, k)] {
      ShiftedAt(s, n, i, k);
    }
    forall b | b in Buffers(s) ensures b in Buffers(r) {
      var k :| 0 <= k < |s| && s[k] != null && s[k] == b;
      assert r[if n < k <= i then k - 1 else if k == n then i else k] == b;
    }
  }
}
