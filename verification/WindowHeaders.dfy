/** What the header lines of a window count, and how a window reads. */
module WindowHeaders {
  import opened Arithmetic
  import opened Sorting
  import opened Packing
  import opened Windows

  // The count of a key, none when it is not there.
  function Lookup(c: Counts, key: string): nat {
    if c == [] then 0 else if c[0].0 == key then c[0].1 else Lookup(c[1..], key)
  }

  function Keys(c: Counts): seq<string> {
    if c == [] then [] else [c[0].0] + Keys(c[1..])
  }

  // The keys of a dict of counts are listed once each, in the order they were first seen.
  ghost predicate DistinctKeys(c: Counts) { Distinct(Keys(c)) }

  lemma {:induction false} BumpKeys(c: Counts, k: string)
    ensures Keys(Bump(c, k)) == if k in Keys(c) then Keys(c) else Keys(c) + [k]
  {
    if c != [] {
      BumpKeys(c[1..], k);
      if c[0].0 == k {
        assert Bump(c, k)[1..] == c[1..];
      } else {
        assert Bump(c, k)[1..] == Bump(c[1..], k);
        assert [c[0].0] + (Keys(c[1..]) + [k]) == Keys(c) + [k];
      }
    }
  }

  lemma BumpStaysDistinct(c: Counts, k: string)
    requires DistinctKeys(c)
    ensures DistinctKeys(Bump(c, k))
  {
    BumpKeys(c, k);
    if k !in Keys(c) { AppendDistinct(Keys(c), k); }
  }

  lemma {:induction false} BumpCounts(c: Counts, k: string, key: string)
    ensures Lookup(Bump(c, k), key) == Lookup(c, key) + if key == k then 1 else 0
  {
    if c != [] && c[0].0 != k {
      BumpCounts(c[1..], k, key);
      assert Bump(c, k)[1..] == Bump(c[1..], k);
    }
  }

  // The tool turns of a stretch that name this tool.
  function ToolTurns(turns: seq<Turn>, n: nat, key: string): set<nat>
    requires n <= |turns|
  {
    set i: nat | i < n && Names(turns[i], key)
  }

  predicate Names(t: Turn, key: string) { t.role == "tool" && FirstWord(t.text) == key }

  predicate IsIn(m: Meta, key: string) { m.lang != "" && m.lang == key }

  function LangMetas(metas: seq<Meta>, n: nat, key: string): set<nat>
    requires n <= |metas|
  {
    set i: nat | i < n && IsIn(metas[i], key)
  }

  lemma ToolTurnsNext(init: seq<Turn>, last: Turn, key: string)
    ensures |ToolTurns(init + [last], |init| + 1, key)|
            == |ToolTurns(init, |init|, key)| + if Names(last, key) then 1 else 0
  {
    var turns, n := init + [last], |init|;
    assert forall i | 0 <= i < n :: turns[i] == init[i];
    SetNext(ToolTurns(init, n, key), ToolTurns(turns, n + 1, key), n, Names(last, key));
  }

  lemma LangMetasNext(init: seq<Meta>, last: Meta, key: string)
    ensures |LangMetas(init + [last], |init| + 1, key)|
            == |LangMetas(init, |init|, key)| + if IsIn(last, key) then 1 else 0
  {
    var metas, n := init + [last], |init|;
    assert forall i | 0 <= i < n :: metas[i] == init[i];
    SetNext(LangMetas(init, n, key), LangMetas(metas, n + 1, key), n, IsIn(last, key));
  }

  lemma {:induction false} ToolCountsAre(turns: seq<Turn>, key: string)
    ensures DistinctKeys(ToolCounts(turns)) && Lookup(ToolCounts(turns), key) == |ToolTurns(turns, |turns|, key)|
  {
    if turns != [] {
      var n := |turns| - 1;
      var init, last := turns[..n], turns[n];
      ToolCountsAre(init, key);
      assert init + [last] == turns;
      ToolTurnsNext(init, last, key);
      if last.role == "tool" {
        BumpStaysDistinct(ToolCounts(init), FirstWord(last.text));
        BumpCounts(ToolCounts(init), FirstWord(last.text), key);
      }
    }
  }

  lemma {:induction false} LangCountsAre(metas: seq<Meta>, key: string)
    ensures DistinctKeys(StrideLangs(metas)) && Lookup(StrideLangs(metas), key) == |LangMetas(metas, |metas|, key)|
  {
    if metas != [] {
      var n := |metas| - 1;
      var init, last := metas[..n], metas[n];
      LangCountsAre(init, key);
      assert init + [last] == metas;
      LangMetasNext(init, last, key);
      if last.lang != "" {
        BumpStaysDistinct(StrideLangs(init), last.lang);
        BumpCounts(StrideLangs(init), last.lang, key);
      }
    }
  }

  // What the header of stretch start..end says.
  ghost predicate Heads(w: Window, full: seq<Turn>, metas: seq<Meta>, strip: bool, key: string) {
    && DistinctKeys(w.tools) && DistinctKeys(w.langs) && w.files == StrideFiles(metas)
    && (if strip then Lookup(w.tools, key) == |ToolTurns(full, |full|, key)| else w.tools == [])
    && Lookup(w.langs, key) == |LangMetas(metas, |metas|, key)|
  }

  lemma PackHeads(full: seq<Turn>, metas: seq<Meta>, start: nat, end: nat, cap: int, strip: bool, marker: string,
                  key: string)
    ensures Heads(Pack(full, HeaderOf(full, metas, strip), start, end, cap, strip, marker), full, metas, strip, key)
  {
    ToolCountsAre(full, key);
    LangCountsAre(metas, key);
  }

  /** The header of a window counts, per name, the tool turns of its stretch, and nothing when tool turns
      are shown; per language, the turns that touched a file in it; and lists the stretch's files. */
  lemma HeaderCounts(turns: seq<Turn>, metas: seq<Meta>, start: nat, end: nat, cap: int, strip: bool, marker: string,
                     key: string)
    requires start <= end <= |turns| == |metas|
    ensures Heads(MakeWindow(turns, metas, start, end, cap, strip, marker), turns[start..end], metas[start..end],
                  strip, key)
  {
    PackHeads(turns[start..end], metas[start..end], start, end, cap, strip, marker, key);
  }

  // Blanks only.
  ghost predicate Blank(s: string) { forall i | 0 <= i < |s| :: s[i] == ' ' }

  ghost predicate IsWord(s: string) { forall i | 0 <= i < |s| :: s[i] != ' ' }

  lemma {:induction false} UpToSpaceIs(text: string) returns (post: string)
    ensures text == UpToSpace(text) + post && IsWord(UpToSpace(text)) && (post == [] || post[0] == ' ')
    ensures text != [] && text[0] != ' ' ==> UpToSpace(text) != []
  {
    if text == [] || text[0] == ' ' {
      post := text;
    } else {
      post := UpToSpaceIs(text[1..]);
      assert text == [text[0]] + text[1..];
    }
  }

  /** A tool's name is the first word of its line: between blanks, and empty only for a blank line. */
  lemma {:induction false} FirstWordIs(text: string) returns (pre: string, post: string)
    ensures text == pre + FirstWord(text) + post && Blank(pre) && IsWord(FirstWord(text))
    ensures (post == [] || post[0] == ' ') && (FirstWord(text) == [] ==> Blank(text))
  {
    if text == [] {
      pre, post := [], [];
    } else if text[0] == ' ' {
      var before;
      before, post := FirstWordIs(text[1..]);
      pre := [' '] + before;
      assert text == [' '] + text[1..];
    } else {
      pre := [];
      post := UpToSpaceIs(text);
    }
  }

  // ----- numbers and lines

  function Digit(c: char): nat {
    if '0' <= c <= '9' then (c as int) - ('0' as int) else 0
  }

  function Value(s: string): nat {
    if s == [] then 0 else 10 * Value(s[..|s| - 1]) + Digit(s[|s| - 1])
  }

  /** A count is printed in decimal: read back, it is the count, with no leading zero. */
  lemma {:induction false} DecimalReads(n: nat)
    ensures Value(Decimal(n)) == n && Decimal(n) != [] && (n > 0 ==> Decimal(n)[0] != '0')
    ensures forall i | 0 <= i < |Decimal(n)| :: '0' <= Decimal(n)[i] <= '9'
  {
    var d := "0123456789";
    if n < 10 {
      assert Decimal(n)[..0] == [];
    } else {
      DecimalReads(n / 10);
      var s := Decimal(n);
      assert s[..|s| - 1] == Decimal(n / 10) && s[|s| - 1] == d[n % 10];
    }
  }

  /** The counted names stand in descending order of their counts, and names with one count in the order
      they were first seen. */
  lemma LineOrder(c: Counts, n: nat)
    ensures var s := Sort(c, AtLeastAsMany);
            && multiset(s) == multiset(c) && (forall i, j | 0 <= i < j < |s| :: s[i].1 >= s[j].1)
            && Filter(s, (x: (string, nat)) => x.1 == n) == Filter(c, (x: (string, nat)) => x.1 == n)
  {
    var s, same := Sort(c, AtLeastAsMany), (x: (string, nat)) => x.1 == n;
    SortSorts(c, AtLeastAsMany);
    SortPermutes(c, AtLeastAsMany);
    SortStable(c, AtLeastAsMany, ("", n));
    FilterSame(s, same, Ties(AtLeastAsMany, ("", n)));
    FilterSame(c, same, Ties(AtLeastAsMany, ("", n)));
    forall i, j | 0 <= i < j < |s| ensures s[i].1 >= s[j].1 {
      assert AtLeastAsMany(s[i], s[j]);
    }
  }

  lemma RenderTurnsOf(init: seq<Turn>, last: Turn)
    ensures RenderTurns(init + [last]) == RenderTurns(init) + (last.role + ": " + last.text + "\n")
  {
    assert (init + [last])[..|init|] == init;
  }

  lemma SortOne(x: (string, nat))
    ensures Sort([x], AtLeastAsMany) == [x]
  {
  }

  lemma SortPair(x: (string, nat), y: (string, nat))
    requires x.1 < y.1
    ensures Sort([x, y], AtLeastAsMany) == [y, x]
  {
    SortOne(y);
    assert [x, y][1..] == [y];
    var none: Counts := [];
    assert [y][1..] == none && Insert(x, none, AtLeastAsMany) == [x];
  }

  lemma ToolsLineReads()
    ensures ToolsLine([("Read", 1), ("Edit", 2)]) == "tools in this stretch: Edit x2, Read x1\n"
  {
    SortPair(("Read", 1), ("Edit", 2));
    var e, r: (string, nat) := ("Edit", 2), ("Read", 1);
    assert Decimal(1) == "1" && Decimal(2) == "2";
    assert "Edit" + " x" + "2" == "Edit x2" && "Read" + " x" + "1" == "Read x1";
    TallyPair(e, r);
    JoinPair("Edit x2", "Read x1");
    assert "Edit x2" + ", " + "Read x1" == "Edit x2, Read x1";
  }

  lemma TallyPair(a: (string, nat), b: (string, nat))
    ensures Tally([a, b]) == [a.0 + " x" + Decimal(a.1), b.0 + " x" + Decimal(b.1)]
  {
    assert [a, b][1..] == [b];
    var none: Counts := [];
    assert [b][1..] == none && Tally(none) == [];
  }

  lemma JoinPair(a: string, b: string)
    ensures Join([a, b]) == a + ", " + b
  {
    assert [a, b][1..] == [b];
  }

  lemma OtherLinesRead()
    ensures LangsLine([("go", 1)]) == "languages in this stretch: go x1\n"
    ensures FilesLine(["a", "b"]) == "files touched: a, b\n"
    ensures ToolsLine([]) == LangsLine([]) == FilesLine([]) == ""
  {
    SortOne(("go", 1));
    assert Decimal(1) == "1";
  }

  /** A marked window of two turns with a header, written out. */
  lemma WindowReads(marker: string)
    ensures var w := Window([Turn("user", "hi"), Turn("assistant", "ok")], true, [("Read", 1), ("Edit", 2)],
                            [("go", 1)], ["a", "b"], 3, 0, 4);
            Render(w, marker)
            == marker + "\n" + ("tools in this stretch: Edit x2, Read x1\n" + "languages in this stretch: go x1\n"
                                + "files touched: a, b\n") + ("user: hi\n" + "assistant: ok\n")
  {
    ToolsLineReads();
    OtherLinesRead();
    var u, a := Turn("user", "hi"), Turn("assistant", "ok");
    var none: seq<Turn> := [];
    RenderTurnsOf(none, u);
    RenderTurnsOf([u], a);
    assert none + [u] == [u] && [u] + [a] == [u, a];
  }
}
