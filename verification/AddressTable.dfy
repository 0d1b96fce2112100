/**
 The table from guest addresses to translated code: 65536 page pointers, each page allocated on first use
 and holding one entry per half-word of 4 KiB. Entry 0 stands for the null pointer.
 */
module AddressTable {
  import opened Words

  const PAGES := 1024 * 64
  const SLOTS := 2048

  datatype Step = Add(adr: Word, val: Word) | Flush

  /** Two addresses share an entry exactly when they agree here. */
  function KeyOf(adr: Word): nat { adr % 0x1000_0000 / 2 }

  function PageOf(adr: Word): (i: nat)
    ensures i < PAGES
  {
    adr % 0x1000_0000 / 0x1000
  }

  function SlotOf(adr: Word): (i: nat)
    ensures i < SLOTS
  {
    adr % 0x1000 / 2
  }

  /** The two indices together are the key, which is the half-word address without its top four bits. */
  lemma IndicesAreKey(adr: Word, other: Word)
    ensures PageOf(adr) == PageOf(other) && SlotOf(adr) == SlotOf(other) <==> KeyOf(adr) == KeyOf(other)
    ensures KeyOf(adr) == adr / 2 % 0x800_0000
  {
    HalfWordKey(adr);
    KeySplit(adr);
    KeySplit(other);
  }

  lemma HalfWordKey(adr: Word)
    ensures KeyOf(adr) == adr / 2 % 0x800_0000
  {
    var low := adr % 0x1000_0000;
    DivUnique(adr, 2, 0x800_0000 * (adr / 0x1000_0000) + low / 2, low % 2);
    DivUnique(adr / 2, 0x800_0000, adr / 0x1000_0000, low / 2);
  }

  lemma KeySplit(adr: Word)
    ensures KeyOf(adr) == SLOTS * PageOf(adr) + SlotOf(adr)
  {
    var low := adr % 0x1000_0000;
    var page, offset := low / 0x1000, low % 0x1000;
    assert adr % 0x1000 == offset by {
      DivUnique(adr, 0x1000, adr / 0x1000_0000 * 0x1_0000 + page, offset);
    }
    DivUnique(low, 2, SLOTS * page + offset / 2, offset % 2);
  }

  /** The value last added for a key since the last flush, or null: the map the table stands for. */
  function LastAdded(history: seq<Step>, key: nat): Word {
    if history == [] then 0
    else
      match history[|history| - 1]
      case Flush => 0
      case Add(adr, val) => if KeyOf(adr) == key then val else LastAdded(history[..|history| - 1], key)
  }

  /** Nothing was added for the key after step `i` of the history, nor the table flushed. */
  ghost predicate Untouched(history: seq<Step>, key: nat, i: nat) {
    forall j | i <= j < |history| :: history[j].Add? && KeyOf(history[j].adr) != key
  }

  /** The map: null when nothing was added since the last flush, and else what the last add for the key brought. */
  lemma {:induction false} LastAddedMeaning(history: seq<Step>, key: nat)
    ensures var v := LastAdded(history, key);
      || (v == 0 && Untouched(history, key, 0))
      || (v == 0 && exists i :: 0 <= i < |history| && history[i].Flush? && Untouched(history, key, i + 1))
      || exists i :: 0 <= i < |history| && history[i].Add? && KeyOf(history[i].adr) == key && history[i].val == v
                     && Untouched(history, key, i + 1)
  {
    if history != [] {
      var n := |history| - 1;
      var front := history[..n];
      LastAddedMeaning(front, key);
      if history[n].Add? && KeyOf(history[n].adr) != key {
        assert forall i: nat :: Untouched(front, key, i) ==> Untouched(history, key, i);
      } else {
        assert Untouched(history, key, n + 1);
      }
    }
  }

  lemma LastAddedSnoc(history: seq<Step>, s: Step, key: nat)
    ensures LastAdded(history + [s], key)
         == match s case Flush => 0 case Add(adr, val) => if KeyOf(adr) == key then val else LastAdded(history, key)
  {
    assert (history + [s])[..|history|] == history;
  }

  class Table {
    const pages: array<array?<Word>>
    /** Every add and flush so far. */
    ghost var history: seq<Step>

    ghost function Allocated(): set<array<Word>>
      reads pages
    {
      set i | 0 <= i < pages.Length && pages[i] != null :: pages[i]
    }

    /** Pages are whole and never shared. */
    ghost predicate Wired()
      reads pages
    {
      && pages.Length == PAGES
      && (forall i | 0 <= i < PAGES && pages[i] != null :: pages[i].Length == SLOTS)
      && (forall i, j | 0 <= i < j < PAGES && pages[i] != null :: pages[i] != pages[j])
    }

    function Entry(adr: Word): Word
      requires Wired()
      reads pages, Allocated()
    {
      if pages[PageOf(adr)] == null then 0 else pages[PageOf(adr)][SlotOf(adr)]
    }

    ghost predicate Valid()
      reads this, pages, Allocated()
    {
      Wired() && forall adr: Word :: Entry(adr) == LastAdded(history, KeyOf(adr))
    }

    constructor ()
      ensures Valid() && history == [] && fresh(pages)
    {
      pages := new array?<Word>[PAGES](i => null);
      history := [];
    }

    /** `retrieve_adr`. */
    method Retrieve(adr: Word) returns (val: Word)
      requires Valid()
      ensures val == LastAdded(history, KeyOf(adr))
    {
      hide LastAdded;
      assert Entry(adr) == LastAdded(history, KeyOf(adr));
      var page := pages[adr % 0x1000_0000 / 0x1000];
      if page == null { return 0; }
      return page[adr % 0x1000 / 2];
    }

    /** `add_adr`, when allocation succeeds. */
    method AddAdr(adr: Word, val: Word)
      requires Valid()
      modifies this, pages, Allocated()
      ensures Valid() && history == old(history) + [Add(adr, val)]
      ensures fresh(Allocated() - old(Allocated()))
    {
      hide LastAdded, KeyOf, PageOf, SlotOf;
      PlaceEntry(adr, val);
      history := history + [Add(adr, val)];
      forall other: Word ensures Entry(other) == LastAdded(history, KeyOf(other)) {
        LastAddedSnoc(old(history), Add(adr, val), KeyOf(other));
        IndicesAreKey(adr, other);
        assert old(Entry(other)) == LastAdded(old(history), KeyOf(other));
      }
    }

    /** The table half of an add. */
    method PlaceEntry(adr: Word, val: Word)
      requires Wired()
      modifies pages, Allocated()
      ensures Wired() && fresh(Allocated() - old(Allocated()))
      ensures forall other: Word ::
                Entry(other)
                == (if PageOf(other) == PageOf(adr) && SlotOf(other) == SlotOf(adr) then val else old(Entry(other)))
    {
      hide PageOf, SlotOf;
      var idx := PageOf(adr);
      var page := pages[idx];
      if page != null {
        assert page in Allocated();
        page[SlotOf(adr)] := val;
      } else {
        var blank := new Word[SLOTS](i => 0);
        blank[SlotOf(adr)] := val;
        pages[idx] := blank;
      }
    }

    /** `flush_page_table`. */
    method FlushPageTable()
      requires Valid()
      modifies this, pages
      ensures Valid() && history == old(history) + [Flush] && Allocated() == {}
    {
      var i := 0;
      while i < PAGES
        invariant 0 <= i <= PAGES && Wired() && history == old(history)
        invariant forall j | 0 <= j < i :: pages[j] == null
        invariant forall j | i <= j < PAGES :: pages[j] == old(pages[j])
      {
        if pages[i] != null { pages[i] := null; }
        i := i + 1;
      }
      history := history + [Flush];
      forall adr: Word ensures Entry(adr) == LastAdded(history, KeyOf(adr)) {
        LastAddedSnoc(old(history), Flush, KeyOf(adr));
      }
    }
  }
}
