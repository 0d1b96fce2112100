/** Printing the register list of a block transfer as ranges, and reading it back. */
module RegisterList {
  import opened Words

  const NAMES: seq<string> :=
    ["R0", "R1", "R2", "R3", "R4", "R5", "R6", "R7", "R8", "R9", "R10", "R11", "R12", "SP", "LR", "PC"]

  const COUNT := 16

  function Name(j: nat): string
    requires j < COUNT
  {
    NAMES[j]
  }

  datatype Range = Range(lo: nat, hi: nat)

  /** Register `j` is in the list. */
  predicate Listed(i: Word, j: nat) { Bit(i, j) == 1 }

  predicate Ranges(rs: seq<Range>) { forall k | 0 <= k < |rs| :: rs[k].lo <= rs[k].hi < COUNT }

  /** Ranges in ascending order that neither overlap nor touch. */
  ghost predicate Canonical(rs: seq<Range>) {
    && Ranges(rs)
    && forall k, m | 0 <= k < m < |rs| :: rs[k].hi + 1 < rs[m].lo
  }

  ghost predicate Covers(rs: seq<Range>, j: nat) { exists r :: r in rs && r.lo <= j <= r.hi }

  // ---------------------------------------------------------------- reading

  /** The position of the first `c`, or the length. */
  function Find(s: string, c: char): (k: nat)
    ensures k <= |s|
    ensures k < |s| ==> s[k] == c
  {
    if s == "" || s[0] == c then 0 else 1 + Find(s[1..], c)
  }

  /** The register of this name, or 16. */
  function RegisterNamed(name: string, from: nat := 0): nat
    decreases COUNT - from
  {
    if from >= COUNT || Name(from) == name then from else RegisterNamed(name, from + 1)
  }

  function ReadRange(s: string): Range {
    var d := Find(s, '-');
    if d == |s| then Range(RegisterNamed(s), RegisterNamed(s))
    else Range(RegisterNamed(s[..d]), RegisterNamed(s[d + 1..]))
  }

  function ReadRanges(s: string): seq<Range> {
    var k := Find(s, ',');
    if k == |s| then [] else [ReadRange(s[..k])] + ReadRanges(s[k + 1..])
  }

  /** Reading a printed list: comma-separated names and name-to-name ranges. */
  function Read(s: string): seq<Range> { if s == "" then [] else ReadRanges(s + ",") }

  // ---------------------------------------------------------------- printing

  function RangeText(r: Range): string
    requires r.lo <= r.hi < COUNT
  {
    if r.lo == r.hi then Name(r.lo) else Name(r.lo) + "-" + Name(r.hi)
  }

  function Text(rs: seq<Range>): string
    requires Ranges(rs)
  {
    if rs == [] then "" else Text(rs[..|rs| - 1]) + RangeText(rs[|rs| - 1]) + ","
  }

  /** The text while a run that starts at `lo` is open. */
  function OpenText(rs: seq<Range>, lo: nat): string
    requires Ranges(rs) && lo < COUNT
  {
    Appended(Text(rs), lo, '-')
  }

  /** `sprintf` at the end of the text: the name and a separator. */
  function Appended(lreg: string, j: nat, separator: char): string
    requires j < COUNT
  {
    lreg + Name(j) + [separator]
  }

  lemma {:induction false} FindSkips(a: string, b: string, c: char)
    requires c !in a
    ensures Find(a + b, c) == |a| + Find(b, c)
  {
    if a == "" {
      assert a + b == b;
    } else {
      assert (a + b)[1..] == a[1..] + b;
      FindSkips(a[1..], b, c);
    }
  }

  lemma NamesPlain(j: nat)
    requires j < COUNT
    ensures ',' !in Name(j) && '-' !in Name(j) && 2 <= |Name(j)| <= 3
  {}

  /** R0 to R12 by their decimal number, and the three with names of their own. */
  lemma NamesAre(j: nat)
    requires j < COUNT
    ensures j < 10 ==> Name(j) == ['R', '0' + j as char]
    ensures 10 <= j < 13 ==> Name(j) == ['R', '1', '0' + (j - 10) as char]
    ensures Name(13) == "SP" && Name(14) == "LR" && Name(15) == "PC"
  {}

  lemma NamesDistinct(j: nat, k: nat)
    requires j < k < COUNT
    ensures Name(j) != Name(k)
  {}

  lemma {:induction false} NamedAt(j: nat, from: nat)
    requires from <= j < COUNT
    ensures RegisterNamed(Name(j), from) == j
    decreases j - from
  {
    if from < j {
      NamesDistinct(from, j);
      NamedAt(j, from + 1);
    }
  }

  lemma RangeReadBack(r: Range)
    requires r.lo <= r.hi < COUNT
    ensures ReadRange(RangeText(r)) == r && ',' !in RangeText(r)
  {
    hide RegisterNamed, Name;
    var a, b := Name(r.lo), Name(r.hi);
    NamesPlain(r.lo);
    NamesPlain(r.hi);
    NamedAt(r.lo, 0);
    NamedAt(r.hi, 0);
    if r.lo == r.hi {
      FindSkips(a, "", '-');
      assert a + "" == a;
    } else {
      FindSkips(a, "-" + b, '-');
      assert a + ("-" + b) == a + "-" + b;
      assert (a + "-" + b)[|a| + 1..] == b;
    }
  }

  lemma {:induction false} ReadJoins(s: string, t: string)
    requires s != "" ==> s[|s| - 1] == ','
    ensures ReadRanges(s + t) == ReadRanges(s) + ReadRanges(t)
    decreases |s|
  {
    hide Find, ReadRange, ReadRanges;
    ReadNone();
    if s == "" {
      assert s + t == t;
    } else {
      var k := Find(s, ',');
      FindBefore(s, t, ',');
      CutAt(s, t, k);
      ReadFirst(s);
      ReadFirst(s + t);
      ReadJoins(s[k + 1..], t);
    }
  }

  lemma ReadFirst(s: string)
    requires Find(s, ',') < |s|
    ensures ReadRanges(s) == [ReadRange(s[..Find(s, ',')])] + ReadRanges(s[Find(s, ',') + 1..])
  {
    hide Find, ReadRange;
  }

  lemma CutAt(s: string, t: string, k: nat)
    requires k < |s|
    ensures (s + t)[..k] == s[..k] && (s + t)[k + 1..] == s[k + 1..] + t
  {}

  lemma {:induction false} FindBefore(s: string, t: string, c: char)
    requires c in s
    ensures Find(s, c) < |s| && Find(s + t, c) == Find(s, c)
  {
    if s[0] != c {
      assert (s + t)[1..] == s[1..] + t;
      FindBefore(s[1..], t, c);
    }
  }

  /** Every list of ranges can be read back from its text. */
  lemma {:induction false} TextReadBack(rs: seq<Range>)
    requires Ranges(rs)
    ensures ReadRanges(Text(rs)) == rs
  {
    hide ReadRange, RangeText, ReadRanges, Name;
    if rs != [] {
      var front, last := rs[..|rs| - 1], rs[|rs| - 1];
      TextReadBack(front);
      TextShape(front);
      RangeReadBack(last);
      var item := RangeText(last);
      ReadJoins(Text(front), item + ",");
      assert Text(front) + (item + ",") == Text(rs);
      ReadOne(item);
      assert front + [last] == rs;
    } else {
      ReadNone();
    }
  }

  lemma TextShape(rs: seq<Range>)
    requires Ranges(rs)
    ensures if rs == [] then Text(rs) == "" else |Text(rs)| >= 2 && Text(rs)[|Text(rs)| - 1] == ','
  {
    hide Name;
    if rs != [] { NamesPlain(rs[|rs| - 1].lo); }
  }

  lemma ReadNone()
    ensures ReadRanges("") == []
  {}

  lemma ReadOne(item: string)
    requires ',' !in item
    ensures ReadRanges(item + ",") == [ReadRange(item)]
  {
    hide ReadRange;
    FindSkips(item, ",", ',');
    assert (item + ",")[..|item|] == item && (item + ",")[|item| + 1..] == "";
    ReadNone();
  }

  /** Ascending ranges that do not touch are determined by the registers they cover: they are its maximal runs. */
  lemma {:induction false} MaximalRuns(rs: seq<Range>, ss: seq<Range>)
    requires Canonical(rs) && Canonical(ss)
    requires forall j: nat :: Covers(rs, j) <==> Covers(ss, j)
    ensures rs == ss
  {
    if rs == [] || ss == [] {
      RunCovers(rs, if rs == [] then 0 else rs[0].lo);
      RunCovers(ss, if ss == [] then 0 else ss[0].lo);
    } else {
      FirstRun(rs, ss);
      FirstRun(ss, rs);
      forall j: nat ensures Covers(rs[1..], j) <==> Covers(ss[1..], j) {
        RestCovers(rs, j);
        RestCovers(ss, j);
      }
      MaximalRuns(rs[1..], ss[1..]);
    }
  }

  lemma RunCovers(rs: seq<Range>, j: nat)
    ensures rs != [] && rs[0].lo <= j <= rs[0].hi ==> Covers(rs, j)
  {
    if rs != [] { assert rs[0] in rs; }
  }

  lemma FirstRun(rs: seq<Range>, ss: seq<Range>)
    requires Canonical(rs) && Canonical(ss) && rs != [] && ss != []
    requires forall j: nat :: Covers(rs, j) <==> Covers(ss, j)
    ensures rs[0].lo >= ss[0].lo && (rs[0].lo == ss[0].lo ==> rs[0].hi <= ss[0].hi)
  {
    RunCovers(rs, rs[0].lo);
    RunCovers(rs, ss[0].hi + 1);
  }

  lemma RestCovers(rs: seq<Range>, j: nat)
    requires Canonical(rs) && rs != []
    ensures Covers(rs[1..], j) <==> Covers(rs, j) && rs[0].hi < j
  {
    if Covers(rs, j) && rs[0].hi < j {
      var r :| r in rs && r.lo <= j <= r.hi;
      assert r in rs[1..];
    }
    if Covers(rs[1..], j) {
      var r :| r in rs[1..] && r.lo <= j <= r.hi;
      var k :| 0 <= k < |rs[1..]| && rs[1..][k] == r;
      assert rs[k + 1] == r;
    }
  }

  /** Registers below `j` have been looked at: `rs` are the runs closed, and `lo` starts the open run, if any. */
  ghost predicate Seen(i: Word, nb: nat, j: nat, prec: bool, lo: nat, rs: seq<Range>) {
    && Canonical(rs)
    && (prec ==> lo < j < nb && forall k | lo <= k <= j :: Listed(i, k))
    && (rs != [] ==> rs[|rs| - 1].hi + 1 < if prec then lo else j + 1)
    && (rs != [] && !prec && j < nb && rs[|rs| - 1].hi + 1 == j ==> !Listed(i, j))
    && forall k: nat :: Covers(rs, k) <==> k < (if prec then lo else j) && Listed(i, k)
  }

  /** One register further, in each of the cases. */
  lemma Stay(i: Word, nb: nat, j: nat, lo: nat, rs: seq<Range>)
    requires j < nb && Seen(i, nb, j, true, lo, rs) && Listed(i, j + 1) && j != nb - 1
    ensures Seen(i, nb, j + 1, true, lo, rs)
  {
    hide Listed, Covers;
  }

  lemma Open(i: Word, nb: nat, j: nat, lo: nat, rs: seq<Range>)
    requires j < nb && Seen(i, nb, j, false, lo, rs) && Listed(i, j) && Listed(i, j + 1) && j != nb - 1
    ensures Seen(i, nb, j + 1, true, j, rs)
  {
    hide Listed, Covers;
  }

  lemma Skip(i: Word, nb: nat, j: nat, lo: nat, rs: seq<Range>)
    requires j < nb && Seen(i, nb, j, false, lo, rs) && !Listed(i, j)
    ensures Seen(i, nb, j + 1, false, lo, rs)
  {
    hide Listed, Covers;
  }

  lemma Close(i: Word, nb: nat, j: nat, prec: bool, lo: nat, rs: seq<Range>)
    requires j < nb <= COUNT && Seen(i, nb, j, prec, lo, rs) && Listed(i, j) && (!Listed(i, j + 1) || j == nb - 1)
    ensures Seen(i, nb, j + 1, false, lo, rs + [Range(if prec then lo else j, j)])
  {
    hide Listed, Covers;
    Closed(rs, Range(if prec then lo else j, j));
  }

  /** `RegList`: what it prints reads back as the maximal runs of the registers listed below `nb`. */
  method RegList(i: Word, nb: nat) returns (lreg: string)
    requires nb <= COUNT
    ensures Canonical(Read(lreg))
    ensures forall j: nat :: Covers(Read(lreg), j) <==> j < nb && Bit(i, j) == 1
    ensures |lreg| < 100
  {
    hide Listed, Bit, Read, Text, Appended, Name, Seen, Canonical, Covers, Ranges, Find, ReadRanges;
    lreg := "";
    var prec := false;
    ghost var rs: seq<Range>, lo: nat := [], 0;
    NothingSeen(i, nb);
    TextShape([]);
    var j := 0;
    while j < nb
      invariant 0 <= j <= nb
      invariant Seen(i, nb, j, prec, lo, rs) && Ranges(rs) && (prec ==> lo < j < nb && Listed(i, j))
      invariant lreg == if prec then OpenText(rs, lo) else Text(rs)
    {
      if prec {
        if !Listed(i, j + 1) || j == nb - 1 {
          lreg := Appended(lreg, j, ',');
          prec := false;
          Close(i, nb, j, true, lo, rs);
          TextCloses(rs, Range(lo, j));
          rs := rs + [Range(lo, j)];
        } else {
          Stay(i, nb, j, lo, rs);
        }
      } else {
        if Listed(i, j) {
          if Listed(i, j + 1) && j != nb - 1 {
            lreg := Appended(lreg, j, '-');
            prec := true;
            Open(i, nb, j, lo, rs);
            lo := j;
          } else {
            lreg := Appended(lreg, j, ',');
            Close(i, nb, j, false, lo, rs);
            TextCloses(rs, Range(j, j));
            rs := rs + [Range(j, j)];
          }
        } else {
          Skip(i, nb, j, lo, rs);
        }
      }
      j := j + 1;
    }
    AllSeen(i, nb, lo, rs);
    ListedBits(i);
    TextShape(rs);
    TextLength(rs);
    Trimmed(rs);
    if lreg != "" { lreg := lreg[..|lreg| - 1]; }
  }

  /** At most three characters and a separator for each register up to the last. */
  lemma {:induction false} TextLength(rs: seq<Range>)
    requires Ranges(rs) && Canonical(rs)
    ensures |Text(rs)| <= if rs == [] then 0 else 4 * (rs[|rs| - 1].hi + 1)
    ensures |Text(rs)| <= 64
  {
    hide Name;
    if rs != [] {
      var r := rs[|rs| - 1];
      TextLength(rs[..|rs| - 1]);
      NamesPlain(r.lo);
      NamesPlain(r.hi);
    }
  }

  lemma NothingSeen(i: Word, nb: nat)
    ensures Seen(i, nb, 0, false, 0, []) && Ranges([])
  {}

  lemma ListedBits(i: Word)
    ensures forall j: nat :: Listed(i, j) <==> Bit(i, j) == 1
  {}

  lemma AllSeen(i: Word, nb: nat, lo: nat, rs: seq<Range>)
    requires Seen(i, nb, nb, false, lo, rs)
    ensures Canonical(rs) && forall j: nat :: Covers(rs, j) <==> j < nb && Listed(i, j)
  {}

  lemma TextCloses(rs: seq<Range>, r: Range)
    requires Ranges(rs) && r.lo <= r.hi < COUNT
    ensures Ranges(rs + [r])
    ensures Text(rs + [r]) == Appended(if r.lo < r.hi then OpenText(rs, r.lo) else Text(rs), r.hi, ',')
  {
    hide Name, Text;
    TextSnoc(rs, r);
    if r.lo < r.hi { Regrouped(Text(rs), Name(r.lo), Name(r.hi)); }
  }

  lemma TextSnoc(rs: seq<Range>, r: Range)
    requires Ranges(rs) && r.lo <= r.hi < COUNT
    ensures Ranges(rs + [r]) && Text(rs + [r]) == Text(rs) + RangeText(r) + ","
  {
    hide Name, RangeText;
    assert (rs + [r])[..|rs|] == rs;
  }

  lemma Regrouped(text: string, a: string, b: string)
    ensures text + (a + "-" + b) + "," == ((text + a) + "-") + b + ","
  {
    assert text + (a + "-" + b) == ((text + a) + "-") + b;
  }

  /** Dropping the last comma. */
  lemma Trimmed(rs: seq<Range>)
    requires Ranges(rs)
    ensures Read(if Text(rs) == "" then "" else Text(rs)[..|Text(rs)| - 1]) == rs
  {
    hide ReadRanges, Text;
    TextReadBack(rs);
    TextShape(rs);
    ReadNone();
    var text := Text(rs);
    if text != "" {
      assert text == text[..|text| - 1] + ",";
    }
  }

  /** Closing a run adds its registers to those covered. */
  lemma Closed(rs: seq<Range>, r: Range)
    ensures forall j: nat :: Covers(rs + [r], j) <==> Covers(rs, j) || r.lo <= j <= r.hi
  {
    forall j: nat ensures Covers(rs + [r], j) <==> Covers(rs, j) || r.lo <= j <= r.hi {
      if Covers(rs, j) { var q :| q in rs && q.lo <= j <= q.hi; assert q in rs + [r]; }
      if r.lo <= j <= r.hi { assert r in rs + [r]; }
    }
  }
}
