/**
  The entry-list operations of `Account`: `add_entry`, `del_entry`,
  `move_entry_up` and `move_entry_down`.

  The source finds an entry with `list.index`, by object identity; here the
  entry is given by its position, so the source's ValueError for an entry
  that is not in the list has no counterpart. The list keeps each entry's
  `entry_num` equal to its position, which is what `Indexed` states.
 */
module EntryList {
  import opened Entries

  /** Every entry's number is its position in the list. */
  predicate Indexed(es: seq<Entry>) {
    forall i :: 0 <= i < |es| ==> es[i].entryNum == i
  }

  /** `Account.add_entry`: a new entry at the end, numbered with the old
      length. `Entry.__init__` reads the clock twice, for the creation time
      and for the update time. */
  function AddEntry(es: seq<Entry>, title: string, body: string, created: nat, updated: nat): (r: seq<Entry>)
    ensures |r| == |es| + 1 && r[..|es|] == es
    ensures r[|es|].title == title && r[|es|].body == body && r[|es|].entryNum == |es|
    ensures r[|es|].timeCreated == created && r[|es|].timeLastUpdate == updated
    ensures Indexed(es) ==> Indexed(r)
  {
    es + [Entry(title, body, |es|, created, updated)]
  }

  /** The same entry with `delta` added to its number (`entry_num += delta`). */
  function Renumbered(e: Entry, delta: int): (r: Entry)
    ensures r.entryNum == e.entryNum + delta
    ensures r.(entryNum := e.entryNum) == e
  {
    e.(entryNum := e.entryNum + delta)
  }

  /** `Account.del_entry`: the entry at position i is popped and every
      entry after it has its number lowered by one. */
  function DelEntry(es: seq<Entry>, i: nat): (r: seq<Entry>)
    requires i < |es|
    ensures |r| == |es| - 1
    ensures r[..i] == es[..i]
    ensures forall k :: i <= k < |r| ==> r[k] == Renumbered(es[k + 1], -1)
    ensures Indexed(es) ==> Indexed(r)
  {
    es[..i] + Lowered(es[i + 1..])
  }

  /** Every entry of `es` with its number lowered by one. */
  function Lowered(es: seq<Entry>): (r: seq<Entry>)
    ensures |r| == |es|
    ensures forall k :: 0 <= k < |es| ==> r[k] == Renumbered(es[k], -1)
  {
    seq(|es|, k requires 0 <= k < |es| => Renumbered(es[k], -1))
  }

  /** `Account.move_entry_up`: unless it is already first, the entry at
      position i is renumbered down, popped and inserted one place earlier,
      and the entry now after it is renumbered up. */
  function MoveUp(es: seq<Entry>, i: nat): (r: seq<Entry>)
    requires i < |es|
    ensures |r| == |es|
    ensures i == 0 ==> r == es
    ensures i > 0 ==> r == es[i - 1 := Renumbered(es[i], -1)][i := Renumbered(es[i - 1], 1)]
    ensures Indexed(es) ==> Indexed(r)
  {
    if i > 0 then
      var moved := Renumbered(es[i], -1);
      var popped := es[..i] + es[i + 1..];
      var inserted := popped[..i - 1] + [moved] + popped[i - 1..];
      inserted[i := Renumbered(inserted[i], 1)]
    else es
  }

  /** `Account.move_entry_down`: unless it is already last, the entry at
      position i is renumbered up, popped and inserted one place later, and
      the entry now before it is renumbered down. */
  function MoveDown(es: seq<Entry>, i: nat): (r: seq<Entry>)
    requires i < |es|
    ensures |r| == |es|
    ensures i == |es| - 1 ==> r == es
    ensures i < |es| - 1 ==> r == es[i + 1 := Renumbered(es[i], 1)][i := Renumbered(es[i + 1], -1)]
    ensures Indexed(es) ==> Indexed(r)
  {
    if i < |es| - 1 then
      var moved := Renumbered(es[i], 1);
      var popped := es[..i] + es[i + 1..];
      var inserted := popped[..i + 1] + [moved] + popped[i + 1..];
      inserted[i := Renumbered(inserted[i], -1)]
    else es
  }

  // ---------------------------------------------------------------------
  // Lemmas
  // ---------------------------------------------------------------------

  /** Moving an entry up and then down again restores the list. */
  lemma MoveDownUndoesMoveUp(es: seq<Entry>, i: nat)
    requires 0 < i < |es|
    ensures MoveDown(MoveUp(es, i), i - 1) == es
  {
  }

  /** Moving an entry down and then up again restores the list. */
  lemma MoveUpUndoesMoveDown(es: seq<Entry>, i: nat)
    requires i + 1 < |es|
    ensures MoveUp(MoveDown(es, i), i + 1) == es
  {
  }

  /** An entry's content: everything but its number. */
  function Content(e: Entry): (string, string, nat, nat) {
    (e.title, e.body, e.timeCreated, e.timeLastUpdate)
  }

  function Contents(es: seq<Entry>): seq<(string, string, nat, nat)> {
    seq(|es|, k requires 0 <= k < |es| => Content(es[k]))
  }

  /** Exchanging two neighbours keeps a sequence's multiset. */
  lemma SwapPermutes<T>(s: seq<T>, j: nat)
    requires 0 < j < |s|
    ensures multiset(s[j - 1 := s[j]][j := s[j - 1]]) == multiset(s)
  {
    var t := s[j - 1 := s[j]][j := s[j - 1]];
    assert s == s[..j - 1] + [s[j - 1], s[j]] + s[j + 1..];
    assert t == s[..j - 1] + [s[j], s[j - 1]] + s[j + 1..];
  }

  /** Moving up exchanges the contents of the two places and nothing else:
      the list holds the same contents, as a permutation. */
  lemma MoveUpPermutes(es: seq<Entry>, i: nat)
    requires i < |es|
    ensures multiset(Contents(MoveUp(es, i))) == multiset(Contents(es))
  {
    if i > 0 {
      var c, r := Contents(es), Contents(MoveUp(es, i));
      assert r == c[i - 1 := c[i]][i := c[i - 1]] by {
        assert forall k :: 0 <= k < |r| ==> r[k] == Content(MoveUp(es, i)[k]);
      }
      SwapPermutes(c, i);
    }
  }

  /** Moving down permutes the contents too. */
  lemma MoveDownPermutes(es: seq<Entry>, i: nat)
    requires i < |es|
    ensures multiset(Contents(MoveDown(es, i))) == multiset(Contents(es))
  {
    if i < |es| - 1 {
      var c, r := Contents(es), Contents(MoveDown(es, i));
      assert r == c[i := c[i + 1]][i + 1 := c[i]] by {
        assert forall k :: 0 <= k < |r| ==> r[k] == Content(MoveDown(es, i)[k]);
      }
      SwapPermutes(c, i + 1);
    }
  }

  /** Deleting the entry just added gives the list back. */
  lemma AddThenDelete(es: seq<Entry>, title: string, body: string, created: nat, updated: nat)
    ensures DelEntry(AddEntry(es, title, body, created, updated), |es|) == es
  {
    var added := AddEntry(es, title, body, created, updated);
    var r := DelEntry(added, |es|);
    assert r == r[..|es|] == added[..|es|];
  }
}
