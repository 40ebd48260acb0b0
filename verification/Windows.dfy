/** Beat-sized windows of a transcript: disjoint strides of `every` prompts, each carried within a
    character cap, and marked when some of it had to be left out. */
module Windows {
  import opened Arithmetic
  import opened Sorting
  import opened Packing

  // The marker a window shows when turns are missing is a parameter: what follows holds for any.
  const FILES_TOTAL: nat := 400

  // A dict of counts in insertion order.
  type Counts = seq<(string, nat)>

  // What one turn's tool use touched; "" where the source has no entry.
  datatype Meta = Meta(lang: string, file: string)

  datatype Window = Window(turns: seq<Turn>, holed: bool, tools: Counts, langs: Counts, files: seq<string>,
                           stride: nat, start: nat, end: nat)

  // ----- the header lines

  function Bump(c: Counts, key: string): Counts {
    if c == [] then [(key, 1)]
    else if c[0].0 == key then [(key, c[0].1 + 1)] + c[1..]
    else [c[0]] + Bump(c[1..], key)
  }

  function FirstWord(text: string): string {
    if text == [] then []
    else if text[0] == ' ' then FirstWord(text[1..])
    else UpToSpace(text)
  }

  function UpToSpace(text: string): string {
    if text == [] || text[0] == ' ' then [] else [text[0]] + UpToSpace(text[1..])
  }

  function ToolCounts(turns: seq<Turn>): Counts {
    if turns == [] then []
    else
      var counts, last := ToolCounts(turns[..|turns| - 1]), turns[|turns| - 1];
      if last.role == "tool" then Bump(counts, FirstWord(last.text)) else counts
  }

  function StrideLangs(metas: seq<Meta>): Counts {
    if metas == [] then []
    else
      var langs, last := StrideLangs(metas[..|metas| - 1]), metas[|metas| - 1];
      if last.lang != "" then Bump(langs, last.lang) else langs
  }

  function NamesLen(files: seq<string>): nat {
    if files == [] then 0 else NamesLen(files[..|files| - 1]) + |files[|files| - 1]| + 2
  }

  // Distinct names, newest last, while they fit in FILES_TOTAL characters.
  function StrideFiles(metas: seq<Meta>): (r: seq<string>)
    ensures NamesLen(r) <= 400
  {
    if metas == [] then []
    else
      var files, f := StrideFiles(metas[..|metas| - 1]), metas[|metas| - 1].file;
      if f != "" && f !in files && NamesLen(files) + |f| + 2 <= FILES_TOTAL then
        assert (files + [f])[..|files|] == files;
        files + [f]
      else files
  }

  // A name is listed unless there was no room for it.
  ghost predicate HasRoom(files: seq<string>, f: string) { NamesLen(files) + |f| + 2 <= 400 }

  ghost predicate Distinct(keys: seq<string>) { forall i, j | 0 <= i < j < |keys| :: keys[i] != keys[j] }

  lemma AppendDistinct(keys: seq<string>, k: string)
    requires Distinct(keys) && k !in keys
    ensures Distinct(keys + [k])
  {
    assert forall i | 0 <= i < |keys| :: keys[i] in keys;
  }

  predicate Touched(metas: seq<Meta>, f: string) { exists i :: 0 <= i < |metas| && metas[i].file == f }

  lemma TouchedNext(init: seq<Meta>, last: Meta, f: string)
    ensures Touched(init + [last], f) <==> Touched(init, f) || f == last.file
  {
    var metas := init + [last];
    assert metas[|init|] == last;
    if i :| 0 <= i < |init| && init[i].file == f { assert metas[i].file == f; }
  }

  // A touched name is listed, or there is no room for it.
  ghost predicate IsListed(files: seq<string>, metas: seq<Meta>, f: string) {
    if f in files then f != "" && Touched(metas, f) else f != "" && Touched(metas, f) ==> !HasRoom(files, f)
  }

  lemma ListedNext(files: seq<string>, init: seq<Meta>, last: Meta, f: string)
    requires IsListed(files, init, f)
    ensures last.file != "" && last.file !in files && HasRoom(files, last.file) ==>
              IsListed(files + [last.file], init + [last], f)
    ensures last.file == "" || last.file in files || !HasRoom(files, last.file) ==>
              IsListed(files, init + [last], f)
  {
    TouchedNext(init, last, f);
    NamesLenNext(files, last.file);
  }

  lemma NamesLenNext(files: seq<string>, f: string)
    ensures NamesLen(files + [f]) == NamesLen(files) + |f| + 2
  {
    assert (files + [f])[..|files|] == files;
  }

  lemma StrideFilesNext(init: seq<Meta>, last: Meta)
    ensures StrideFiles(init + [last])
            == if last.file != "" && last.file !in StrideFiles(init) && HasRoom(StrideFiles(init), last.file)
               then StrideFiles(init) + [last.file] else StrideFiles(init)
  {
    assert (init + [last])[..|init|] == init;
  }

  /** The listed names are distinct, each is a file the stride touched, together they take at most their
      allowance, and a touched file is left out only for want of room. */
  lemma {:induction false} FilesAreListed(metas: seq<Meta>)
    ensures NamesLen(StrideFiles(metas)) <= 400 && Distinct(StrideFiles(metas))
    ensures forall f :: IsListed(StrideFiles(metas), metas, f)
  {
    if metas != [] {
      var init, last := metas[..|metas| - 1], metas[|metas| - 1];
      var files := StrideFiles(init);
      FilesAreListed(init);
      assert metas == init + [last];
      StrideFilesNext(init, last);
      if last.file !in files { AppendDistinct(files, last.file); }
      forall f ensures IsListed(StrideFiles(metas), metas, f) { ListedNext(files, init, last, f); }
    }
  }

  // The names stand in the order of `at`, where each was first touched.
  ghost predicate StandsAtFirst(files: seq<string>, metas: seq<Meta>, at: seq<nat>) {
    && |at| == |files| && (forall i, j | 0 <= i < j < |at| :: at[i] < at[j])
    && forall i | 0 <= i < |at| :: FirstAt(metas, files[i], at[i])
  }

  ghost predicate FirstAt(metas: seq<Meta>, f: string, k: nat) {
    k < |metas| && metas[k].file == f && forall j | 0 <= j < k :: metas[j].file != f
  }

  lemma FirstAtNext(init: seq<Meta>, last: Meta, f: string, k: nat)
    ensures FirstAt(init, f, k) ==> FirstAt(init + [last], f, k)
    ensures !Touched(init, last.file) ==> FirstAt(init + [last], last.file, |init|)
  {
    var metas := init + [last];
    assert forall j | 0 <= j < |init| :: metas[j] == init[j];
  }

  lemma StandsNext(files: seq<string>, init: seq<Meta>, last: Meta, at: seq<nat>)
    requires StandsAtFirst(files, init, at)
    ensures StandsAtFirst(files, init + [last], at)
    ensures !Touched(init, last.file) ==> StandsAtFirst(files + [last.file], init + [last], at + [|init|])
  {
    forall i | 0 <= i < |at| ensures FirstAt(init + [last], files[i], at[i]) {
      FirstAtNext(init, last, files[i], at[i]);
    }
    FirstAtNext(init, last, last.file, |init|);
  }

  /** The names stand in the order in which they were first touched. */
  lemma {:induction false} FilesInOrder(metas: seq<Meta>) returns (at: seq<nat>)
    ensures StandsAtFirst(StrideFiles(metas), metas, at)
  {
    at := [];
    if metas != [] {
      var init, last := metas[..|metas| - 1], metas[|metas| - 1];
      var files := StrideFiles(init);
      at := FilesInOrder(init);
      FilesAreListed(init);
      assert metas == init + [last];
      StrideFilesNext(init, last);
      StandsNext(files, init, last, at);
      assert IsListed(files, init, last.file);
      if last.file != "" && last.file !in files && HasRoom(files, last.file) { at := at + [|init|]; }
    }
  }

  function Decimal(n: nat): string {
    if n < 10 then ["0123456789"[n]] else Decimal(n / 10) + ["0123456789"[n % 10]]
  }

  predicate AtLeastAsMany(a: (string, nat), b: (string, nat)) { a.1 >= b.1 }

  function Join(parts: seq<string>): string {
    if parts == [] then "" else if |parts| == 1 then parts[0] else parts[0] + ", " + Join(parts[1..])
  }

  function Tally(c: Counts): seq<string> {
    if c == [] then [] else [c[0].0 + " x" + Decimal(c[0].1)] + Tally(c[1..])
  }

  function CountsLine(title: string, c: Counts): string {
    if c == [] then "" else title + Join(Tally(Sort(c, AtLeastAsMany))) + "\n"
  }

  function ToolsLine(c: Counts): string { CountsLine("tools in this stretch: ", c) }

  function LangsLine(c: Counts): string { CountsLine("languages in this stretch: ", c) }

  function FilesLine(files: seq<string>): string {
    if files == [] then "" else "files touched: " + Join(files) + "\n"
  }

  // ----- rendering

  function RenderTurns(turns: seq<Turn>): string {
    if turns == [] then ""
    else RenderTurns(turns[..|turns| - 1]) + (turns[|turns| - 1].role + ": " + turns[|turns| - 1].text + "\n")
  }

  // The lines every window shows before its turns.
  function Lines(tools: Counts, langs: Counts, files: seq<string>): string {
    ToolsLine(tools) + LangsLine(langs) + FilesLine(files)
  }

  // Everything a window shows before its turns.
  function Head(w: Window, marker: string): string {
    (if w.holed then marker + "\n" else "") + Lines(w.tools, w.langs, w.files)
  }

  function Render(w: Window, marker: string): string { Head(w, marker) + RenderTurns(w.turns) }

  lemma {:induction false} RenderedCost(turns: seq<Turn>)
    ensures |RenderTurns(turns)| == Cost(turns)
  {
    if turns != [] { RenderedCost(turns[..|turns| - 1]); }
  }

  // ----- one window

  predicate IsShown(t: Turn) { t.role != "tool" }

  // The turns of a stride that the window may carry.
  function Shown(turns: seq<Turn>, strip: bool): seq<Turn> {
    if strip then Filter(turns, IsShown) else turns
  }

  // Two fits, because the marker is part of what the window costs.
  function FitWithMarker(stride: seq<Turn>, budget: int, marker: string): (seq<Turn>, bool) {
    var kept := Fit(stride, budget);
    if |kept| < |stride| then (Fit(stride, budget - (|marker| + 1)), true) else (kept, false)
  }

  // What a stride's header says, whether or not its turns fit.
  datatype Header = Header(tools: Counts, langs: Counts, files: seq<string>)

  function HeaderOf(turns: seq<Turn>, metas: seq<Meta>, strip: bool): Header {
    Header(if strip then ToolCounts(turns) else [], StrideLangs(metas), StrideFiles(metas))
  }

  function Overhead(h: Header): nat { |Lines(h.tools, h.langs, h.files)| }

  function Pack(full: seq<Turn>, h: Header, start: nat, end: nat, cap: int, strip: bool, marker: string): Window {
    var stride := Shown(full, strip);
    var (kept, holed) := FitWithMarker(stride, cap - Overhead(h), marker);
    Window(kept, holed, h.tools, h.langs, h.files, |stride|, start, end)
  }

  // s[a:b], for the slices taken here.
  function Part<T>(s: seq<T>, a: nat, b: nat): seq<T> {
    if a <= b <= |s| then s[a..b] else []
  }

  function MakeWindow(turns: seq<Turn>, metas: seq<Meta>, start: nat, end: nat, cap: int, strip: bool,
                      marker: string): Window {
    var full := Part(turns, start, end);
    Pack(full, HeaderOf(full, Part(metas, start, end), strip), start, end, cap, strip, marker)
  }

  lemma MarkerIffMissing(stride: seq<Turn>, budget: int, marker: string)
    ensures var (kept, holed) := FitWithMarker(stride, budget, marker);
            && (holed <==> |kept| < |stride|)
            && (!holed ==> kept == stride)
            && Cost(kept) <= Least(budget - if holed then |marker| + 1 else 0)
  {
    FitIsCompleteIffItFits(stride, budget);
    FitIsCompleteIffItFits(stride, budget - (|marker| + 1));
    SelectLength(stride, budget);
    SelectLength(stride, budget - (|marker| + 1));
  }

  function Least(budget: int): nat { if budget < 0 then 0 else budget }

  /** A window's rendering stays within the cap exactly when its own header does: every character of
      header, marker included, is charged before the turns are fitted. And the marker is shown
      exactly when some turn of the displayed stride is missing, even though the marker itself
      shrinks the budget of the second fit. */
  lemma WindowKeepsItsCap(turns: seq<Turn>, metas: seq<Meta>, start: nat, end: nat, cap: int, strip: bool,
                          marker: string)
    ensures var w := MakeWindow(turns, metas, start, end, cap, strip, marker);
            var stride := Shown(Part(turns, start, end), strip);
            && (|Render(w, marker)| <= cap <==> |Head(w, marker)| <= cap)
            && (|marker| + 1 + |Lines(w.tools, w.langs, w.files)| <= cap ==> |Render(w, marker)| <= cap)
            && (w.holed <==> |w.turns| < |stride|) && (!w.holed ==> w.turns == stride) && w.stride == |stride|
  {
    var full := Part(turns, start, end);
    PackKeepsItsCap(full, HeaderOf(full, Part(metas, start, end), strip), start, end, cap, strip, marker);
  }

  lemma PackKeepsItsCap(full: seq<Turn>, h: Header, start: nat, end: nat, cap: int, strip: bool, marker: string)
    ensures var w, stride := Pack(full, h, start, end, cap, strip, marker), Shown(full, strip);
            && (|Render(w, marker)| <= cap <==> |Head(w, marker)| <= cap)
            && (|marker| + 1 + |Lines(w.tools, w.langs, w.files)| <= cap ==> |Render(w, marker)| <= cap)
            && (w.holed <==> |w.turns| < |stride|) && (!w.holed ==> w.turns == stride) && w.stride == |stride|
  {
    FittedKeepsCap(Pack(full, h, start, end, cap, strip, marker), Shown(full, strip), cap, marker);
  }

  lemma FittedKeepsCap(w: Window, stride: seq<Turn>, cap: int, marker: string)
    requires var (kept, holed) := FitWithMarker(stride, cap - |Lines(w.tools, w.langs, w.files)|, marker);
             w.turns == kept && w.holed == holed
    requires w.stride == |stride|
    ensures |Render(w, marker)| <= cap <==> |Head(w, marker)| <= cap
    ensures |marker| + 1 + |Lines(w.tools, w.langs, w.files)| <= cap ==> |Render(w, marker)| <= cap
    ensures (w.holed <==> |w.turns| < |stride|) && (!w.holed ==> w.turns == stride)
  {
    MarkerIffMissing(stride, cap - |Lines(w.tools, w.langs, w.files)|, marker);
    RenderedLength(w, marker);
  }

  lemma RenderedLength(w: Window, marker: string)
    ensures |Render(w, marker)| == |Head(w, marker)| + Cost(w.turns)
    ensures |Head(w, marker)| == |Lines(w.tools, w.langs, w.files)| + if w.holed then |marker| + 1 else 0
  {
    RenderedCost(w.turns);
  }

  lemma SelectLength(stride: seq<Turn>, budget: int)
    ensures |Fit(stride, budget)| <= |stride|
  {
  }

  // ----- the strides

  // Prompts among the first k turns.
  function Users(turns: seq<Turn>, k: nat): nat
    requires k <= |turns|
  {
    if k == 0 then 0 else Users(turns, k - 1) + if IsUser(turns[k - 1]) then 1 else 0
  }

  function StartOf(bounds: seq<nat>, k: nat): nat
    requires k < |bounds|
  {
    if k == 0 then 0 else bounds[k - 1]
  }

  // A full stride ends on its last prompt, the (k + 1) * every-th of the transcript.
  predicate EndsOnPrompt(turns: seq<Turn>, b: nat, count: nat) {
    0 < b <= |turns| && IsUser(turns[b - 1]) && Users(turns, b) == count
  }

  // The bounds the counting loop leaves before the remainder is added.
  ghost predicate FullBounds(bounds: seq<nat>, turns: seq<Turn>, every: nat) {
    forall k | 0 <= k < |bounds| :: EndsOnPrompt(turns, bounds[k], (k + 1) * every)
  }

  /** Every bound but possibly the last closes a stride of exactly `every` prompts, on a prompt; the
      last bound is the end of the transcript, and what it closes holds fewer unless it too is
      full. */
  ghost predicate Strides(bounds: seq<nat>, turns: seq<Turn>, every: nat) {
    && bounds != [] && bounds[|bounds| - 1] == |turns|
    && FullBounds(bounds[..|bounds| - 1], turns, every)
    && (EndsOnPrompt(turns, |turns|, |bounds| * every) || Users(turns, |turns|) < |bounds| * every)
  }

  method CountBounds(turns: seq<Turn>, every: nat) returns (bounds: seq<nat>)
    requires every > 0
    ensures Strides(bounds, turns, every)
  {
    bounds := [];
    var seen := 0;
    for i := 0 to |turns|
      invariant Counting(bounds, turns, every, i, seen)
    {
      if IsUser(turns[i]) {
        seen := seen + 1;
        CountPrompt(bounds, turns, every, i, seen - 1);
        if seen % every == 0 {
          bounds := bounds + [i + 1];
        }
      }
    }
    FinishBounds(bounds, turns, every, seen);
    if bounds == [] || bounds[|bounds| - 1] != |turns| {
      bounds := bounds + [|turns|];
    }
  }

  // The state of the counting loop before turn i.
  ghost predicate Counting(bounds: seq<nat>, turns: seq<Turn>, every: nat, i: nat, seen: nat) {
    && i <= |turns| && seen == Users(turns, i) && FullBounds(bounds, turns, every)
    && |bounds| * every <= seen < (|bounds| + 1) * every
    && (bounds != [] ==> bounds[|bounds| - 1] <= i)
  }

  lemma CountPrompt(bounds: seq<nat>, turns: seq<Turn>, every: nat, i: nat, seen: nat)
    requires every > 0 && i < |turns| && IsUser(turns[i]) && Counting(bounds, turns, every, i, seen)
    ensures Counting(if (seen + 1) % every == 0 then bounds + [i + 1] else bounds, turns, every, i + 1, seen + 1)
  {
    var k := |bounds|;
    assert (k + 1) * every == k * every + every && (k + 2) * every == (k + 1) * every + every;
    if (seen + 1) % every == 0 {
      ExactMultiple(seen + 1, every, k);
      assert EndsOnPrompt(turns, i + 1, (k + 1) * every);
    } else {
      NotMultiple(seen + 1, every, k);
    }
  }

  lemma FinishBounds(bounds: seq<nat>, turns: seq<Turn>, every: nat, seen: nat)
    requires every > 0 && Counting(bounds, turns, every, |turns|, seen)
    ensures Strides(if bounds == [] || bounds[|bounds| - 1] != |turns| then bounds + [|turns|] else bounds,
                    turns, every)
  {
    assert (bounds + [|turns|])[..|bounds|] == bounds;
    if bounds != [] && bounds[|bounds| - 1] == |turns| {
      assert EndsOnPrompt(turns, bounds[|bounds| - 1], |bounds| * every);
    }
  }

  lemma ExactMultiple(seen: nat, every: nat, k: nat)
    requires every > 0 && k * every < seen <= k * every + every && seen % every == 0
    ensures seen == (k + 1) * every
  {
    var q := seen / every;
    assert seen == q * every && (k + 1) * every == k * every + every;
    if q < k { MulGap(q, k, every); }
    if q > k + 1 { MulGap(k + 1, q, every); }
  }

  lemma NotMultiple(seen: nat, every: nat, k: nat)
    requires every > 0 && seen % every != 0
    ensures seen != (k + 1) * every
  {
    if seen == (k + 1) * every {
      QuotientIs(seen, every, k + 1, 0);
    }
  }

  method PackWindow(full: seq<Turn>, h: Header, start: nat, end: nat, cap: int, strip: bool, marker: string)
    returns (w: Window)
    ensures w == Pack(full, h, start, end, cap, strip, marker)
  {
    var overhead := Overhead(h);
    var stride := Shown(full, strip);
    var kept := FitTurns(stride, cap - overhead);
    var holed := |kept| < |stride|;
    if holed {
      kept := FitTurns(stride, cap - overhead - (|marker| + 1));
    }
    w := Window(kept, holed, h.tools, h.langs, h.files, |stride|, start, end);
  }

  // Bounds in order, so that strides abut.
  ghost predicate Abutting(bounds: seq<nat>, n: nat) {
    forall k: nat {:trigger StartOf(bounds, k)} | k < |bounds| :: StartOf(bounds, k) <= bounds[k] <= n
  }

  // What `pack` makes of the first k strides.
  function Strided<W>(bounds: seq<nat>, k: nat, pack: (nat, nat) -> W): (r: seq<W>)
    requires k <= |bounds|
    ensures |r| == k
    ensures forall j {:trigger r[j]} | 0 <= j < k :: r[j] == pack(StartOf(bounds, j), bounds[j])
  {
    if k == 0 then [] else Strided(bounds, k - 1, pack) + [pack(StartOf(bounds, k - 1), bounds[k - 1])]
  }

  // The loop over the bounds.
  method PackStrides(turns: seq<Turn>, metas: seq<Meta>, bounds: seq<nat>, cap: int, strip: bool, marker: string,
                     ghost pack: (nat, nat) -> Window)
    returns (out: seq<Window>)
    requires forall s: nat, e: nat :: pack(s, e) == MakeWindow(turns, metas, s, e, cap, strip, marker)
    ensures out == Strided(bounds, |bounds|, pack)
  {
    out := [];
    var start := 0;
    for k := 0 to |bounds|
      invariant start == if k == 0 then 0 else bounds[k - 1]
      invariant out == Strided(bounds, k, pack)
    {
      var end := bounds[k];
      var full := Part(turns, start, end);
      var h := HeaderOf(full, Part(metas, start, end), strip);
      var w := PackWindow(full, h, start, end, cap, strip, marker);
      assert pack(start, end) == MakeWindow(turns, metas, start, end, cap, strip, marker);
      out := out + [w];
      start := end;
    }
  }

  // Windows that abut, from the first of n turns to the last.
  ghost predicate SpanAll(out: seq<Window>, n: nat) {
    && out != [] && out[0].start == 0 && out[|out| - 1].end == n
    && forall i, j | 0 <= i < |out| && j == i + 1 && j < |out| :: out[i].end == out[j].start
  }

  lemma WindowSpan(turns: seq<Turn>, metas: seq<Meta>, start: nat, end: nat, cap: int, strip: bool, marker: string)
    ensures var w := MakeWindow(turns, metas, start, end, cap, strip, marker); w.start == start && w.end == end
  {
  }

  lemma StridedSpanAll(out: seq<Window>, bounds: seq<nat>, n: nat)
    requires bounds != [] && bounds[|bounds| - 1] == n && |out| == |bounds|
    requires forall k: nat | k < |bounds| :: out[k].start == StartOf(bounds, k) && out[k].end == bounds[k]
    ensures SpanAll(out, n)
  {
    forall i, j | 0 <= i < |out| && j == i + 1 && j < |out| ensures out[i].end == out[j].start {
      assert StartOf(bounds, j) == bounds[i];
    }
  }

  /** windows: disjoint contiguous strides, each packed into its own window; the strides end where
      the prompts say. */
  method MakeWindows(turns: seq<Turn>, metas: seq<Meta>, every: nat, cap: int, strip: bool, marker: string)
    returns (out: seq<Window>, ghost bounds: seq<nat>)
    requires every > 0 && |turns| == |metas|
    ensures Strides(bounds, turns, every) && |out| == |bounds| && forall k | 0 <= k < |out| :: out[k].end == bounds[k]
    ensures SpanAll(out, |turns|)
    ensures forall k | 0 <= k < |out| ::
              out[k] == MakeWindow(turns, metas, out[k].start, out[k].end, cap, strip, marker)
  {
    var ends := CountBounds(turns, every);
    bounds := ends;
    out := PackStrides(turns, metas, ends, cap, strip, marker,
                       (s: nat, e: nat) => MakeWindow(turns, metas, s, e, cap, strip, marker));
    forall k: nat | k < |ends|
      ensures out[k].start == StartOf(ends, k) && out[k].end == ends[k]
      ensures out[k] == MakeWindow(turns, metas, out[k].start, out[k].end, cap, strip, marker)
    {
      WindowSpan(turns, metas, StartOf(ends, k), ends[k], cap, strip, marker);
    }
    StridedSpanAll(out, ends, |turns|);
  }

  lemma {:induction false} UsersMonotone(turns: seq<Turn>, a: nat, b: nat)
    requires a <= b <= |turns|
    ensures Users(turns, a) <= Users(turns, b)
    decreases b
  {
    if a < b { UsersMonotone(turns, a, b - 1); }
  }

  lemma StridesAscend(bounds: seq<nat>, turns: seq<Turn>, every: nat)
    requires every > 0 && Strides(bounds, turns, every)
    ensures Abutting(bounds, |turns|)
  {
    forall k: nat | k < |bounds| ensures StartOf(bounds, k) <= bounds[k] <= |turns| {
      if k > 0 && k < |bounds| - 1 {
        assert bounds[..|bounds| - 1][k - 1] == bounds[k - 1] && bounds[..|bounds| - 1][k] == bounds[k];
        MulGap(k, k + 1, every);
        if bounds[k] < bounds[k - 1] { UsersMonotone(turns, bounds[k], bounds[k - 1]); }
      } else if k > 0 {
        assert bounds[..|bounds| - 1][k - 1] == bounds[k - 1];
      } else if |bounds| > 1 {
        assert bounds[..|bounds| - 1][0] == bounds[0];
      }
    }
  }

  function Prompts(turns: seq<Turn>, start: nat, end: nat): set<nat>
    requires end <= |turns|
  {
    set i: nat | start <= i < end && turns[i].role == "user"
  }

  lemma {:induction false} PromptsAreCounted(turns: seq<Turn>, start: nat, end: nat)
    requires start <= end <= |turns|
    ensures |Prompts(turns, start, end)| == Users(turns, end) - Users(turns, start)
    decreases end
  {
    if start == end {
      assert Prompts(turns, start, end) == {};
    } else {
      PromptsAreCounted(turns, start, end - 1);
      var before := Prompts(turns, start, end - 1);
      SetNext(before, Prompts(turns, start, end), end - 1, turns[end - 1].role == "user");
    }
  }

  /** Inside the transcript every stride holds exactly `every` prompts and ends on one; the last
      holds at most that many. */
  lemma StridesHoldEvery(bounds: seq<nat>, turns: seq<Turn>, every: nat, k: nat)
    requires every > 0 && Strides(bounds, turns, every) && k < |bounds|
    ensures StartOf(bounds, k) <= bounds[k] <= |turns|
    ensures var held := |Prompts(turns, StartOf(bounds, k), bounds[k])|;
            && held <= every
            && (k < |bounds| - 1 ==> held == every && bounds[k] > 0 && turns[bounds[k] - 1].role == "user")
  {
    StridesAscend(bounds, turns, every);
    PromptsAreCounted(turns, StartOf(bounds, k), bounds[k]);
    UsersMonotone(turns, StartOf(bounds, k), bounds[k]);
    if k > 0 {
      assert bounds[..|bounds| - 1][k - 1] == bounds[k - 1];
      assert Users(turns, bounds[k - 1]) == k * every;
    }
    if k < |bounds| - 1 {
      assert bounds[..|bounds| - 1][k] == bounds[k];
    }
    assert (k + 1) * every == k * every + every;
  }
}
