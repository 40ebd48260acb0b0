/** bound: fit messages to a word budget by trimming the longest one first, at sentence boundaries.
    A message is its sentences, a sentence its words. */
module Prose {
  import opened Arithmetic
  import opened Sorting

  type Sentence = seq<string>
  type Message = seq<Sentence>

  // What splitting at white space after a full stop gives: sentences of at least one word, and, when
  // the message ends in white space, an empty one after the last.
  ghost predicate Splits(m: Message) {
    forall k | 0 <= k < |m| :: m[k] != [] || 0 < k == |m| - 1
  }

  function Words(m: Message): nat {
    if m == [] then 0 else Words(m[..|m| - 1]) + |m[|m| - 1]|
  }

  function Total(msgs: seq<Message>): nat {
    if msgs == [] then 0 else Total(msgs[..|msgs| - 1]) + Words(msgs[|msgs| - 1])
  }

  // [m for m in messages if m.strip()]
  function NonBlank(messages: seq<Message>): (r: seq<Message>)
    ensures forall k | 0 <= k < |r| :: r[k] != [] && r[k] in messages
  {
    if messages == [] then []
    else
      var rest := NonBlank(messages[..|messages| - 1]);
      if messages[|messages| - 1] == [] then rest else rest + [messages[|messages| - 1]]
  }

  /** Every message with text in it is kept, in order, and no other. */
  lemma {:induction false} NonBlankKeeps(messages: seq<Message>)
    ensures NonBlank(messages) == Filter(messages, (m: Message) => m != [])
    ensures multiset(NonBlank(messages))[[]] == 0
    ensures forall m: Message | m != [] :: multiset(NonBlank(messages))[m] == multiset(messages)[m]
  {
    if messages != [] {
      var init, last := messages[..|messages| - 1], messages[|messages| - 1];
      assert messages == init + [last];
      NonBlankKeeps(init);
      FilterLast(init, last, (m: Message) => m != []);
    }
  }

  // msgs.pop(i)
  function Without<T>(s: seq<T>, i: nat): (r: seq<T>)
    requires i < |s|
    ensures |r| == |s| - 1
    ensures forall k {:trigger r[k]} | 0 <= k < |r| :: r[k] == s[if k < i then k else k + 1]
  {
    s[..i] + s[i + 1..]
  }

  lemma {:induction false} TotalConcat(a: seq<Message>, b: seq<Message>)
    ensures Total(a + b) == Total(a) + Total(b)
  {
    if b == [] {
      assert a + b == a;
    } else {
      TotalConcat(a, b[..|b| - 1]);
      assert (a + b)[..|a + b| - 1] == a + b[..|b| - 1];
    }
  }

  lemma TotalOfOne(m: Message)
    ensures Total([m]) == Words(m)
  {
    assert [m][..0] == [];
  }

  lemma TotalAround(a: seq<Message>, m: Message, b: seq<Message>)
    ensures Total(a + [m] + b) == Total(a + b) + Words(m)
  {
    TotalOfOne(m);
    TotalConcat(a, [m]);
    TotalConcat(a + [m], b);
    TotalConcat(a, b);
  }

  lemma SplitAt<T>(s: seq<T>, i: nat)
    requires i < |s|
    ensures s == s[..i] + [s[i]] + s[i + 1..]
  {
  }

  lemma TotalWithout(msgs: seq<Message>, i: nat)
    requires i < |msgs|
    ensures Total(msgs) == Total(Without(msgs, i)) + Words(msgs[i])
  {
    SplitAt(msgs, i);
    TotalAround(msgs[..i], msgs[i], msgs[i + 1..]);
  }

  lemma TotalReplaced(msgs: seq<Message>, i: nat, m: Message)
    requires i < |msgs|
    ensures Total(msgs[i := m]) == Total(msgs) - Words(msgs[i]) + Words(m)
  {
    TotalWithout(msgs, i);
    TotalWithout(msgs[i := m], i);
    assert Without(msgs[i := m], i) == Without(msgs, i);
  }

  lemma {:induction false} WordsPrefix(m: Message, p: nat)
    requires p <= |m|
    ensures Words(m[..p]) <= Words(m)
    decreases |m|
  {
    if p < |m| {
      WordsPrefix(m[..|m| - 1], p);
      assert m[..|m| - 1][..p] == m[..p];
    } else {
      assert m[..p] == m;
    }
  }

  // All sentences of all messages: what a round always takes some of.
  function Sentences(msgs: seq<Message>): nat {
    if msgs == [] then 0 else Sentences(msgs[..|msgs| - 1]) + |msgs[|msgs| - 1]|
  }

  lemma {:induction false} SentencesConcat(a: seq<Message>, b: seq<Message>)
    ensures Sentences(a + b) == Sentences(a) + Sentences(b)
  {
    if b == [] {
      assert a + b == a;
    } else {
      SentencesConcat(a, b[..|b| - 1]);
      assert (a + b)[..|a + b| - 1] == a + b[..|b| - 1];
    }
  }

  lemma SentencesWithout(msgs: seq<Message>, i: nat)
    requires i < |msgs|
    ensures Sentences(msgs) == Sentences(Without(msgs, i)) + |msgs[i]|
  {
    SplitAt(msgs, i);
    assert [msgs[i]][..0] == [];
    SentencesConcat(msgs[..i], [msgs[i]]);
    SentencesConcat(msgs[..i] + [msgs[i]], msgs[i + 1..]);
    SentencesConcat(msgs[..i], msgs[i + 1..]);
  }

  lemma SentencesReplaced(msgs: seq<Message>, i: nat, m: Message)
    requires i < |msgs|
    ensures Sentences(msgs[i := m]) == Sentences(msgs) - |msgs[i]| + |m|
  {
    SentencesWithout(msgs, i);
    SentencesWithout(msgs[i := m], i);
    assert Without(msgs[i := m], i) == Without(msgs, i);
  }

  // ----- what trimming leaves

  // The survivors, in order, each a non-empty sentence-prefix of the message it came from.
  ghost predicate Survivors(src: seq<Message>, msgs: seq<Message>, origin: seq<nat>) {
    && |origin| == |msgs|
    && (forall k | 0 <= k < |origin| :: origin[k] < |src|)
    && (forall j, k | 0 <= j < k < |origin| :: origin[j] < origin[k])
    && (forall k | 0 <= k < |msgs| :: msgs[k] != [] && msgs[k] <= src[origin[k]])
  }

  // Some of source message i is gone.
  ghost predicate Touched(src: seq<Message>, msgs: seq<Message>, origin: seq<nat>, i: nat)
    requires |origin| == |msgs| && i < |src|
  {
    forall k | 0 <= k < |origin| && origin[k] == i :: |msgs[k]| < |src[i]|
  }

  // Exactly p sentences of source message i are left.
  ghost predicate KeptOf(msgs: seq<Message>, origin: seq<nat>, i: nat, p: nat)
    requires |origin| == |msgs|
  {
    if p == 0 then i !in origin else exists k :: 0 <= k < |origin| && origin[k] == i && |msgs[k]| == p
  }

  // Only a message that was the longest at the time is ever trimmed.
  ghost predicate LongestFirst(src: seq<Message>, msgs: seq<Message>, origin: seq<nat>)
    requires |origin| == |msgs|
  {
    forall i, k | 0 <= i < |src| && 0 <= k < |msgs| && Touched(src, msgs, origin, i) :: Words(src[i]) >= Words(msgs[k])
  }

  // Putting the next sentence of message i back would not fit.
  ghost predicate Tight(src: seq<Message>, msgs: seq<Message>, origin: seq<nat>, i: nat, budget: int)
    requires |origin| == |msgs|
  {
    i < |src| && exists p :: 0 <= p < |src[i]| && KeptOf(msgs, origin, i, p) && Total(msgs) + |src[i][p]| > budget
  }

  ghost predicate AllSplit(msgs: seq<Message>) {
    forall k | 0 <= k < |msgs| :: Splits(msgs[k])
  }

  // ----- the two inner loops

  // The first of the longest among the first n.
  function FirstLongest(msgs: seq<Message>, n: nat): (i: nat)
    requires 0 < n <= |msgs|
    ensures i < n && forall k | 0 <= k < n :: Words(msgs[k]) <= Words(msgs[i])
    ensures forall k | 0 <= k < i :: Words(msgs[k]) < Words(msgs[i])
  {
    if n == 1 then 0
    else
      var i := FirstLongest(msgs, n - 1);
      if Words(msgs[n - 1]) > Words(msgs[i]) then n - 1 else i
  }

  // max(range(len(msgs)), key=words)
  method Longest(msgs: seq<Message>) returns (i: nat)
    requires msgs != []
    ensures i == FirstLongest(msgs, |msgs|)
    ensures i < |msgs| && forall k | 0 <= k < |msgs| :: Words(msgs[k]) <= Words(msgs[i])
    ensures forall k | 0 <= k < i :: Words(msgs[k]) < Words(msgs[i])
  {
    i := 0;
    for j := 1 to |msgs|
      invariant i == FirstLongest(msgs, j)
    {
      if Words(msgs[j]) > Words(msgs[i]) {
        i := j;
      }
    }
  }

  // How many sentences are kept, when the first k are: one more as long as the target allows.
  function KeepCount(sents: Message, target: int, k: nat): (r: nat)
    requires 0 < k <= |sents|
    ensures k <= r <= |sents|
    decreases |sents| - k
  {
    if k == |sents| || Words(sents[..k]) + |sents[k]| > target then k else KeepCount(sents, target, k + 1)
  }

  // The sentences kept of one message: as many as the target allows, and at least one.
  function Keep(sents: Message, target: int): Message
    requires sents != []
  {
    sents[..KeepCount(sents, target, 1)]
  }

  method KeepUpTo(sents: Message, target: int) returns (keep: Message, n: nat)
    requires sents != []
    ensures keep == Keep(sents, target) && n == Words(keep)
    ensures keep != [] && keep <= sents
    ensures |keep| > 1 ==> n <= target
    ensures |keep| < |sents| ==> n + |sents[|keep|]| > target
  {
    keep, n := [], 0;
    for k := 0 to |sents|
      invariant keep == sents[..k] && n == Words(keep)
      invariant |keep| > 1 ==> n <= target
      invariant k > 0 ==> KeepCount(sents, target, 1) == KeepCount(sents, target, k)
    {
      if n + |sents[k]| > target && keep != [] {
        return;
      }
      assert sents[..k + 1][..k] == sents[..k];
      keep, n := keep + [sents[k]], n + |sents[k]|;
    }
  }

  // ----- one trimming step keeps what has been promised

  lemma DropTouches(src: seq<Message>, msgs: seq<Message>, origin: seq<nat>, i: nat, j: nat)
    requires |origin| == |msgs| && i < |msgs| && j < |src| && j != origin[i]
    requires Touched(src, Without(msgs, i), Without(origin, i), j)
    ensures Touched(src, msgs, origin, j)
  {
    var rest, left := Without(msgs, i), Without(origin, i);
    forall q | 0 <= q < |origin| && origin[q] == j ensures |msgs[q]| < |src[j]| {
      var k := if q < i then q else q - 1;
      assert left[k] == j && rest[k] == msgs[q];
    }
  }

  lemma DropSurvivors(src: seq<Message>, msgs: seq<Message>, origin: seq<nat>, i: nat)
    requires Survivors(src, msgs, origin) && i < |msgs|
    ensures Survivors(src, Without(msgs, i), Without(origin, i))
    ensures KeptOf(Without(msgs, i), Without(origin, i), origin[i], 0)
  {
    var rest, left := Without(msgs, i), Without(origin, i);
    forall k | 0 <= k < |left|
      ensures left[k] < |src| && left[k] != origin[i] && rest[k] != [] && rest[k] <= src[left[k]]
    {
      var q := if k < i then k else k + 1;
      assert left[k] == origin[q] && rest[k] == msgs[q];
      assert q < i ==> origin[q] < origin[i];
      assert i < q ==> origin[i] < origin[q];
    }
    forall j, k | 0 <= j < k < |left| ensures left[j] < left[k] {
      assert origin[if j < i then j else j + 1] < origin[if k < i then k else k + 1];
    }
  }

  lemma DropKeeps(src: seq<Message>, msgs: seq<Message>, origin: seq<nat>, i: nat)
    requires AllSplit(src) && Survivors(src, msgs, origin) && LongestFirst(src, msgs, origin) && i < |msgs|
    requires forall k | 0 <= k < |msgs| :: Words(msgs[k]) <= Words(msgs[i])
    ensures var rest, left := Without(msgs, i), Without(origin, i);
            Survivors(src, rest, left) && LongestFirst(src, rest, left) && KeptOf(rest, left, origin[i], 0)
  {
    var rest, left := Without(msgs, i), Without(origin, i);
    DropSurvivors(src, msgs, origin, i);
    WordsPrefix(src[origin[i]], |msgs[i]|);
    assert src[origin[i]][..|msgs[i]|] == msgs[i];
    forall j, k | 0 <= j < |src| && 0 <= k < |rest| && Touched(src, rest, left, j)
      ensures Words(src[j]) >= Words(rest[k])
    {
      assert rest[k] == msgs[if k < i then k else k + 1];
      if j != origin[i] { DropTouches(src, msgs, origin, i, j); }
    }
  }

  lemma TrimKeeps(src: seq<Message>, msgs: seq<Message>, origin: seq<nat>, i: nat, keep: Message)
    requires AllSplit(src) && Survivors(src, msgs, origin) && LongestFirst(src, msgs, origin) && i < |msgs|
    requires forall k | 0 <= k < |msgs| :: Words(msgs[k]) <= Words(msgs[i])
    requires keep != [] && keep <= msgs[i]
    ensures var rest := msgs[i := keep];
            Survivors(src, rest, origin) && LongestFirst(src, rest, origin) && KeptOf(rest, origin, origin[i], |keep|)
  {
    var rest := msgs[i := keep];
    WordsPrefix(src[origin[i]], |msgs[i]|);
    assert src[origin[i]][..|msgs[i]|] == msgs[i];
    WordsPrefix(msgs[i], |keep|);
    assert msgs[i][..|keep|] == keep;
    assert keep <= src[origin[i]];
    forall j, k | 0 <= j < |src| && 0 <= k < |rest| && Touched(src, rest, origin, j)
      ensures Words(src[j]) >= Words(rest[k])
    {
      assert Words(rest[k]) <= Words(msgs[k]);
      if j != origin[i] {
        assert Touched(src, msgs, origin, j) by {
          forall q | 0 <= q < |origin| && origin[q] == j ensures |msgs[q]| < |src[j]| {
            assert rest[q] == msgs[q];
          }
        }
      }
    }
    assert rest[i] == keep;
  }

  lemma TightAfterDrop(src: seq<Message>, msgs: seq<Message>, origin: seq<nat>, i: nat, budget: int)
    requires AllSplit(src) && Survivors(src, msgs, origin) && i < |msgs| && |msgs[i]| <= 1 && Total(msgs) > budget
    requires Total(Without(msgs, i)) == Total(msgs) - Words(msgs[i])
    requires KeptOf(Without(msgs, i), Without(origin, i), origin[i], 0)
    ensures Tight(src, Without(msgs, i), Without(origin, i), origin[i], budget) && Words(msgs[i]) > 0
  {
    var m := src[origin[i]];
    assert msgs[i] == [m[0]];
    assert Words(msgs[i]) == |m[0]| by { assert msgs[i][..0] == []; }
  }

  // A message of one word with an empty sentence split off it.
  predicate Unsplittable(m: Message) { |m| > 1 && Words(m) == 1 }

  lemma KeepIsProper(m: Message, keep: Message, target: int)
    requires Splits(m) && |m| > 1 && !Unsplittable(m) && keep != [] && keep <= m
    requires target < Words(m) || target == 1
    requires |keep| > 1 ==> Words(keep) <= target
    ensures |keep| < |m| && Words(keep) <= Words(m)
  {
    WordsPrefix(m, |keep|);
    assert m[..|keep|] == keep;
    WordsAtLeastOne(m);
    assert m[..|m|] == m;
  }

  lemma TightAfterTrim(src: seq<Message>, msgs: seq<Message>, origin: seq<nat>, i: nat, keep: Message, target: int,
                       budget: int)
    requires Survivors(src, msgs, origin) && i < |msgs|
    requires Total(msgs[i := keep]) == Total(msgs) - Words(msgs[i]) + Words(keep)
    requires KeptOf(msgs[i := keep], origin, origin[i], |keep|)
    requires |keep| < |msgs[i]| && Words(keep) + |msgs[i][|keep|]| > target >= Words(msgs[i]) - (Total(msgs) - budget)
    ensures Tight(src, msgs[i := keep], origin, origin[i], budget)
  {
    assert msgs[i][|keep|] == src[origin[i]][|keep|];
  }

  // A message with text in it has a word.
  lemma WordsAtLeastOne(m: Message)
    requires Splits(m) && m != []
    ensures 1 <= |m[0]| <= Words(m)
  {
    WordsPrefix(m, 1);
    assert m[..1][..0] == [];
  }

  lemma SurvivorSplits(src: seq<Message>, msgs: seq<Message>, origin: seq<nat>, i: nat)
    requires AllSplit(src) && Survivors(src, msgs, origin) && i < |msgs|
    ensures Splits(msgs[i])
  {
    assert Splits(src[origin[i]]);
    assert forall k | 0 <= k < |msgs[i]| :: msgs[i][k] == src[origin[i]][k];
  }

  // ----- bound

  // What is left of the longest message, a target a word at least.
  function Target(words: nat, over: int): int { if words - over < 1 then 1 else words - over }

  // One round: the longest message loses its last sentences, or, when it has but one, goes whole.
  function Round(msgs: seq<Message>, budget: int): seq<Message>
    requires msgs != []
  {
    var i := FirstLongest(msgs, |msgs|);
    if |msgs[i]| <= 1 then Without(msgs, i)
    else msgs[i := Keep(msgs[i], Target(Words(msgs[i]), Total(msgs) - budget))]
  }

  // The first of the longest messages goes whole when it is one sentence. Otherwise it keeps its first
  // sentences, at least one: no more than leave the whole within budget (or come to a single word), and
  // as many of them as do.
  ghost predicate TrimsOne(msgs: seq<Message>, after: seq<Message>, i: nat, budget: int) {
    && i < |msgs|
    && (forall k | 0 <= k < |msgs| :: Words(msgs[k]) <= Words(msgs[i]))
    && (forall k | 0 <= k < i :: Words(msgs[k]) < Words(msgs[i]))
    && if |msgs[i]| == 1 then after == msgs[..i] + msgs[i + 1..]
       else exists n :: 1 <= n <= |msgs[i]| && after == msgs[i := msgs[i][..n]]
                        && KeepsMost(msgs[i], n, Total(after), budget)
  }

  ghost predicate KeepsMost(m: Message, n: int, total: int, budget: int)
    requires 0 <= n <= |m|
  {
    && (n > 1 ==> total <= budget || Words(m[..n]) <= 1)
    && (n < |m| ==> total + |m[n]| > budget && Words(m[..n]) + |m[n]| > 1)
  }

  /** One round of the loop, in terms of the messages before and after it and the budget. */
  lemma RoundIs(msgs: seq<Message>, budget: int)
    requires Over(msgs, budget) && forall k | 0 <= k < |msgs| :: msgs[k] != []
    ensures TrimsOne(msgs, Round(msgs, budget), FirstLongest(msgs, |msgs|), budget)
  {
    var i := FirstLongest(msgs, |msgs|);
    var m := msgs[i];
    if |m| > 1 {
      var target := Target(Words(m), Total(msgs) - budget);
      var n := KeepCount(m, target, 1);
      KeepWithinTarget(m, target, 1);
      TotalReplaced(msgs, i, m[..n]);
      assert KeepsMost(m, n, Total(msgs[i := m[..n]]), budget);
    }
  }

  method TrimLongest(ghost src: seq<Message>, msgs: seq<Message>, ghost origin: seq<nat>, total: nat, budget: int)
    returns (msgs': seq<Message>, ghost origin': seq<nat>, removed: nat, ghost last: nat)
    requires AllSplit(src) && Survivors(src, msgs, origin) && LongestFirst(src, msgs, origin)
    requires msgs != [] && total == Total(msgs) > budget
    requires !Unsplittable(msgs[FirstLongest(msgs, |msgs|)])
    ensures msgs' == Round(msgs, budget)
    ensures Survivors(src, msgs', origin') && LongestFirst(src, msgs', origin')
    ensures removed <= total && Total(msgs') == total - removed && Sentences(msgs') < Sentences(msgs)
    ensures Tight(src, msgs', origin', last, budget)
  {
    var i := Longest(msgs);
    var words := Words(msgs[i]);
    last := origin[i];
    if |msgs[i]| <= 1 {
      TotalWithout(msgs, i);
      SentencesWithout(msgs, i);
      DropKeeps(src, msgs, origin, i);
      TightAfterDrop(src, msgs, origin, i, budget);
      msgs', origin', removed := Without(msgs, i), Without(origin, i), words;
    } else {
      var target := if words - (total - budget) < 1 then 1 else words - (total - budget);
      var keep, n := KeepUpTo(msgs[i], target);
      TotalReplaced(msgs, i, keep);
      SentencesReplaced(msgs, i, keep);
      TrimKeeps(src, msgs, origin, i, keep);
      SurvivorSplits(src, msgs, origin, i);
      KeepIsProper(msgs[i], keep, target);
      TightAfterTrim(src, msgs, origin, i, keep, target, budget);
      msgs', origin', removed := msgs[i := keep], origin, words - n;
    }
  }

  function UpTo(n: nat): (r: seq<nat>)
    ensures |r| == n && forall k | 0 <= k < n :: r[k] == k
  {
    if n == 0 then [] else UpTo(n - 1) + [n - 1]
  }

  // What any number of rounds has left, `dropped` words later.
  ghost predicate Trimmed(src: seq<Message>, msgs: seq<Message>, origin: seq<nat>, dropped: nat, last: nat,
                          budget: int) {
    && Survivors(src, msgs, origin) && LongestFirst(src, msgs, origin)
    && Total(msgs) + dropped == Total(src)
    && (msgs == src || Tight(src, msgs, origin, last, budget))
  }

  lemma NothingTrimmed(src: seq<Message>, budget: int) returns (origin: seq<nat>)
    requires forall k | 0 <= k < |src| :: src[k] != []
    ensures Trimmed(src, src, origin, 0, 0, budget)
  {
    origin := UpTo(|src|);
    forall i | 0 <= i < |src| ensures !Touched(src, src, origin, i) {
      assert origin[i] == i;
    }
  }

  // ----- when the rounds end

  // The messages from q on that open with a sentence of one word.
  ghost function Openers(src: seq<Message>, q: nat): set<nat> {
    set j: nat | q <= j < |src| && src[j] != [] && |src[j][0]| == 1
  }

  // From any message no round can shorten on, no more messages open with one word than fit.
  ghost predicate Stops(src: seq<Message>, budget: int) {
    forall q: nat | q < |src| && Unsplittable(src[q]) :: |Openers(src, q)| <= budget
  }

  ghost predicate Increasing(origin: seq<nat>) { forall j, k | 0 <= j < k < |origin| :: origin[j] < origin[k] }

  function Elements(origin: seq<nat>): set<nat> { set x | x in origin }

  lemma {:induction false} ElementsCount(origin: seq<nat>)
    requires Increasing(origin)
    ensures |Elements(origin)| == |origin|
  {
    if origin != [] {
      var n := |origin| - 1;
      var init, last := origin[..n], origin[n];
      ElementsCount(init);
      assert origin == init + [last];
      assert last !in init;
      assert Elements(origin) == Elements(init) + {last};
    }
  }

  lemma {:induction false} TotalAtLeast(src: seq<Message>, msgs: seq<Message>, n: nat)
    requires n <= |msgs| && forall k | 0 <= k < n :: Words(msgs[k]) >= 1
    ensures Total(msgs[..n]) >= n
    ensures (forall k | 0 <= k < n :: Words(msgs[k]) == 1) ==> Total(msgs[..n]) == n
  {
    if n > 0 {
      TotalAtLeast(src, msgs, n - 1);
      assert msgs[..n][..n - 1] == msgs[..n - 1];
    }
  }

  lemma SurvivorWords(src: seq<Message>, msgs: seq<Message>, origin: seq<nat>, k: nat)
    requires AllSplit(src) && Survivors(src, msgs, origin) && k < |msgs|
    ensures Splits(msgs[k]) && src[origin[k]] != [] && msgs[k][0] == src[origin[k]][0]
    ensures 1 <= |msgs[k][0]| <= Words(msgs[k])
  {
    SurvivorSplits(src, msgs, origin, k);
    WordsAtLeastOne(msgs[k]);
  }

  // A survivor that no round can shorten is untouched.
  lemma UnsplittableIsWhole(src: seq<Message>, msgs: seq<Message>, origin: seq<nat>, k: nat)
    requires AllSplit(src) && Survivors(src, msgs, origin) && k < |msgs| && Unsplittable(msgs[k])
    ensures msgs[k] == src[origin[k]] && |msgs[k]| == 2 && msgs[k][1] == []
  {
    var m, whole := msgs[k], src[origin[k]];
    SurvivorWords(src, msgs, origin, k);
    FirstTwoWords(m);
    assert m[1] == whole[1];
    assert Splits(whole);
  }

  lemma FirstTwoWords(m: Message)
    requires |m| >= 2
    ensures |m[0]| + |m[1]| <= Words(m)
  {
    WordsPrefix(m, 2);
    assert m[..2][..1] == m[..1] && m[..1][..0] == [];
  }

  // As long as the rounds may end and are not done, the longest message can be shortened.
  lemma NoStall(src: seq<Message>, msgs: seq<Message>, origin: seq<nat>, budget: int)
    requires AllSplit(src) && Survivors(src, msgs, origin) && Stops(src, budget)
    requires msgs != [] && Total(msgs) > budget
    ensures !Unsplittable(msgs[FirstLongest(msgs, |msgs|)])
  {
    var i := FirstLongest(msgs, |msgs|);
    if Unsplittable(msgs[i]) {
      AllOneWord(src, msgs, origin, i);
      UnsplittableIsWhole(src, msgs, origin, i);
      ElementsCount(origin);
      SubsetSize(Elements(origin), Openers(src, origin[0]));
    }
  }

  // If the longest message has one word, every message has, and it is the first.
  lemma AllOneWord(src: seq<Message>, msgs: seq<Message>, origin: seq<nat>, i: nat)
    requires AllSplit(src) && Survivors(src, msgs, origin) && i < |msgs| && Words(msgs[i]) == 1
    requires i == FirstLongest(msgs, |msgs|)
    ensures i == 0 && Total(msgs) == |msgs|
    ensures forall x | x in origin :: x in Openers(src, origin[0])
  {
    forall k | 0 <= k < |msgs| ensures Words(msgs[k]) == 1 && origin[k] in Openers(src, origin[0]) {
      SurvivorWords(src, msgs, origin, k);
      assert k > 0 ==> origin[0] < origin[k];
    }
    TotalAtLeast(src, msgs, |msgs|);
    assert msgs[..|msgs|] == msgs;
  }

  // The loop's condition, and its state after n rounds.
  predicate Over(msgs: seq<Message>, budget: int) { Total(msgs) > budget && msgs != [] }

  function After(src: seq<Message>, budget: int, n: nat): seq<Message> {
    if n == 0 then src
    else
      var msgs := After(src, budget, n - 1);
      if Over(msgs, budget) then Round(msgs, budget) else msgs
  }

  // The opener q stays whole and every opener after it stays: what keeps the rounds going.
  ghost predicate Held(src: seq<Message>, msgs: seq<Message>, origin: seq<nat>, q: nat) {
    && Survivors(src, msgs, origin) && q < |src|
    && (forall x | x in Openers(src, q) :: x in origin)
    && (forall k | 0 <= k < |origin| && origin[k] == q :: msgs[k] == src[q])
  }

  lemma {:induction false} UnsplittableKeeps(m: Message, target: int, k: nat)
    requires Unsplittable(m) && target >= 1 && 0 < k <= |m|
    ensures KeepCount(m, target, k) == |m|
    decreases |m| - k
  {
    if k < |m| {
      assert m[..k + 1][..k] == m[..k];
      WordsPrefix(m, k + 1);
      UnsplittableKeeps(m, target, k + 1);
    }
  }

  // A whole message dropped is none of those held.
  lemma DropsNoneHeld(src: seq<Message>, msgs: seq<Message>, origin: seq<nat>, q: nat, i: nat)
    requires AllSplit(src) && Held(src, msgs, origin, q) && Unsplittable(src[q]) && q in Openers(src, q)
    requires i < |msgs| && i == FirstLongest(msgs, |msgs|) && |msgs[i]| <= 1
    ensures origin[i] !in Openers(src, q)
  {
    var k :| 0 <= k < |origin| && origin[k] == q;
    assert k > 0 ==> origin[0] < origin[k];
    SurvivorWords(src, msgs, origin, i);
    if origin[i] in Openers(src, q) {
      assert msgs[i] == [msgs[i][0]] && msgs[i][..0] == [];
      AllOneWord(src, msgs, origin, i);
    }
  }

  lemma HeldAfterDrop(src: seq<Message>, msgs: seq<Message>, origin: seq<nat>, q: nat, i: nat)
    requires Held(src, msgs, origin, q) && i < |msgs| && origin[i] !in Openers(src, q)
    ensures Held(src, Without(msgs, i), Without(origin, i), q)
  {
    var rest, left := Without(msgs, i), Without(origin, i);
    DropSurvivors(src, msgs, origin, i);
    forall x | x in Openers(src, q) ensures x in left {
      var k :| 0 <= k < |origin| && origin[k] == x;
      assert left[if k < i then k else k - 1] == x;
    }
    forall k | 0 <= k < |left| && left[k] == q ensures rest[k] == src[q] {
      assert origin[if k < i then k else k + 1] == q;
    }
  }

  lemma HeldAfterTrim(src: seq<Message>, msgs: seq<Message>, origin: seq<nat>, q: nat, i: nat, target: int)
    requires AllSplit(src) && Held(src, msgs, origin, q) && Unsplittable(src[q]) && i < |msgs| && target >= 1
    ensures Held(src, msgs[i := Keep(msgs[i], target)], origin, q)
  {
    var keep := Keep(msgs[i], target);
    if origin[i] == q { UnsplittableKeeps(msgs[i], target, 1); }
    assert keep != [] && keep <= msgs[i] <= src[origin[i]];
  }

  lemma HeldAfterRound(src: seq<Message>, msgs: seq<Message>, origin: seq<nat>, q: nat, budget: int)
    returns (origin': seq<nat>)
    requires AllSplit(src) && Held(src, msgs, origin, q) && Unsplittable(src[q]) && q in Openers(src, q) && msgs != []
    ensures Held(src, Round(msgs, budget), origin', q)
  {
    var i := FirstLongest(msgs, |msgs|);
    if |msgs[i]| <= 1 {
      DropsNoneHeld(src, msgs, origin, q, i);
      HeldAfterDrop(src, msgs, origin, q, i);
      origin' := Without(origin, i);
    } else {
      HeldAfterTrim(src, msgs, origin, q, i, Target(Words(msgs[i]), Total(msgs) - budget));
      origin' := origin;
    }
  }

  // While they are held, the words are too many.
  lemma HeldIsOver(src: seq<Message>, msgs: seq<Message>, origin: seq<nat>, q: nat, budget: int)
    requires AllSplit(src) && Held(src, msgs, origin, q) && |Openers(src, q)| > budget && q in Openers(src, q)
    ensures Over(msgs, budget)
  {
    ElementsCount(origin);
    SubsetSize(Openers(src, q), Elements(origin));
    forall k | 0 <= k < |msgs| ensures Words(msgs[k]) >= 1 { SurvivorWords(src, msgs, origin, k); }
    TotalAtLeast(src, msgs, |msgs|);
    assert msgs[..|msgs|] == msgs;
  }

  lemma HeldAtStart(src: seq<Message>, q: nat) returns (origin: seq<nat>)
    requires q < |src| && forall k | 0 <= k < |src| :: src[k] != []
    ensures Held(src, src, origin, q)
  {
    origin := UpTo(|src|);
    forall x | x in Openers(src, q) ensures x in origin {
      assert origin[x] == x;
    }
  }

  lemma {:induction false} NeverDone(src: seq<Message>, budget: int, q: nat, n: nat) returns (origin: seq<nat>)
    requires AllSplit(src) && (forall k | 0 <= k < |src| :: src[k] != [])
    requires q < |src| && Unsplittable(src[q]) && |Openers(src, q)| > budget
    ensures Held(src, After(src, budget, n), origin, q) && Over(After(src, budget, n), budget)
  {
    OpensWithOne(src, q);
    if n == 0 {
      origin := HeldAtStart(src, q);
    } else {
      var before := NeverDone(src, budget, q, n - 1);
      AfterNext(src, budget, n - 1);
      origin := HeldAfterRound(src, After(src, budget, n - 1), before, q, budget);
    }
    HeldIsOver(src, After(src, budget, n), origin, q, budget);
  }

  lemma OpensWithOne(src: seq<Message>, q: nat)
    requires AllSplit(src) && q < |src| && Unsplittable(src[q])
    ensures q in Openers(src, q)
  {
    assert Splits(src[q]);
    WordsAtLeastOne(src[q]);
  }

  // ----- the loop

  // What the loop knows after some rounds.
  ghost predicate Trimming(src: seq<Message>, msgs: seq<Message>, origin: seq<nat>, dropped: nat, last: nat,
                           rounds: nat, budget: int) {
    Trimmed(src, msgs, origin, dropped, last, budget) && msgs == After(src, budget, rounds)
  }

  lemma AfterNext(src: seq<Message>, budget: int, n: nat)
    requires Over(After(src, budget, n), budget)
    ensures After(src, budget, n + 1) == Round(After(src, budget, n), budget)
  {
  }

  // The loop body.
  method TrimNext(ghost src: seq<Message>, msgs: seq<Message>, ghost origin: seq<nat>, dropped: nat, total: nat,
                  ghost last: nat, ghost rounds: nat, budget: int)
    returns (msgs': seq<Message>, ghost origin': seq<nat>, dropped': nat, total': nat, ghost last': nat)
    requires AllSplit(src) && Stops(src, budget) && Trimming(src, msgs, origin, dropped, last, rounds, budget)
    requires msgs != [] && total == Total(msgs) > budget
    ensures Trimming(src, msgs', origin', dropped', last', rounds + 1, budget)
    ensures total' == Total(msgs') && Sentences(msgs') < Sentences(msgs)
  {
    NoStall(src, msgs, origin, budget);
    AfterNext(src, budget, rounds);
    var removed;
    msgs', origin', removed, last' := TrimLongest(src, msgs, origin, total, budget);
    dropped', total' := dropped + removed, total - removed;
  }

  // The rounds, from messages that are over the budget.
  method TrimAll(src: seq<Message>, ghost from: seq<nat>, budget: int)
    returns (msgs: seq<Message>, dropped: nat, ghost origin: seq<nat>, ghost last: nat, ghost rounds: nat)
    requires AllSplit(src) && Stops(src, budget) && Trimmed(src, src, from, 0, 0, budget)
    ensures Trimming(src, msgs, origin, dropped, last, rounds, budget) && !Over(msgs, budget)
  {
    msgs, origin, dropped, last, rounds := src, from, 0, 0, 0;
    var total := Total(msgs);
    while total > budget && msgs != []
      invariant total == Total(msgs) && Trimming(src, msgs, origin, dropped, last, rounds, budget)
      decreases Sentences(msgs)
    {
      msgs, origin, dropped, total, last := TrimNext(src, msgs, origin, dropped, total, last, rounds, budget);
      rounds := rounds + 1;
    }
  }

  /** bound: ends within budget, loses no count of words, keeps sentence-prefixes in order, touches only
      what was longest, stops as soon as it fits, and touches nothing that fits. */
  method Bound(messages: seq<Message>, budget: int)
    returns (msgs: seq<Message>, dropped: nat, ghost origin: seq<nat>, ghost last: nat, ghost rounds: nat)
    requires AllSplit(NonBlank(messages)) && Stops(NonBlank(messages), budget)
    ensures Trimmed(NonBlank(messages), msgs, origin, dropped, last, budget)
    ensures msgs == After(NonBlank(messages), budget, rounds) && !Over(msgs, budget)
    ensures Total(msgs) <= budget || (budget < 0 && msgs == [])
    ensures dropped == 0 <==> Total(NonBlank(messages)) <= budget || NonBlank(messages) == []
    ensures Total(NonBlank(messages)) <= budget ==> msgs == NonBlank(messages)
  {
    var src := NonBlank(messages);
    ghost var start := NothingTrimmed(src, budget);
    if Total(src) <= budget {
      return src, 0, start, 0, 0;
    }
    msgs, dropped, origin, last, rounds := TrimAll(src, start, budget);
    NoWordsIsNothing(src);
  }

  lemma NoWordsIsNothing(src: seq<Message>)
    requires AllSplit(src) && forall k | 0 <= k < |src| :: src[k] != []
    ensures Total(src) == 0 <==> src == []
  {
    forall k | 0 <= k < |src| ensures Words(src[k]) >= 1 {
      assert Splits(src[k]);
      WordsAtLeastOne(src[k]);
    }
    TotalAtLeast(src, src, |src|);
    assert src[..|src|] == src;
  }

  // The loop as a whole ends.
  ghost predicate Ends(src: seq<Message>, budget: int) { exists n: nat :: !Over(After(src, budget, n), budget) }

  lemma {:induction false} RoundsEnd(src: seq<Message>, origin: seq<nat>, budget: int, n: nat)
    requires AllSplit(src) && Stops(src, budget) && Survivors(src, After(src, budget, n), origin)
    ensures Ends(src, budget)
    decreases Sentences(After(src, budget, n))
  {
    var msgs := After(src, budget, n);
    if Over(msgs, budget) {
      NoStall(src, msgs, origin, budget);
      var left := RoundShrinks(src, msgs, origin, budget);
      RoundsEnd(src, left, budget, n + 1);
    }
  }

  lemma RoundShrinks(src: seq<Message>, msgs: seq<Message>, origin: seq<nat>, budget: int) returns (left: seq<nat>)
    requires AllSplit(src) && Survivors(src, msgs, origin) && Over(msgs, budget)
    requires !Unsplittable(msgs[FirstLongest(msgs, |msgs|)])
    ensures Survivors(src, Round(msgs, budget), left) && Sentences(Round(msgs, budget)) < Sentences(msgs)
  {
    var i := FirstLongest(msgs, |msgs|);
    if |msgs[i]| <= 1 {
      SentencesWithout(msgs, i);
      DropSurvivors(src, msgs, origin, i);
      left := Without(origin, i);
    } else {
      TrimShrinks(src, msgs, origin, i, Target(Words(msgs[i]), Total(msgs) - budget));
      left := origin;
    }
  }

  lemma TrimShrinks(src: seq<Message>, msgs: seq<Message>, origin: seq<nat>, i: nat, target: int)
    requires AllSplit(src) && Survivors(src, msgs, origin) && i < |msgs| && |msgs[i]| > 1 && !Unsplittable(msgs[i])
    requires target < Words(msgs[i]) || target == 1
    ensures var rest := msgs[i := Keep(msgs[i], target)];
            Survivors(src, rest, origin) && Sentences(rest) < Sentences(msgs)
  {
    var keep := Keep(msgs[i], target);
    SentencesReplaced(msgs, i, keep);
    SurvivorSplits(src, msgs, origin, i);
    KeepWithinTarget(msgs[i], target, 1);
    KeepIsProper(msgs[i], keep, target);
    ShorterSurvives(src, msgs, origin, i, keep);
  }

  lemma ShorterSurvives(src: seq<Message>, msgs: seq<Message>, origin: seq<nat>, i: nat, keep: Message)
    requires Survivors(src, msgs, origin) && i < |msgs| && keep != [] && keep <= msgs[i]
    ensures Survivors(src, msgs[i := keep], origin)
  {
    assert msgs[i] <= src[origin[i]];
  }

  lemma {:induction false} KeepWithinTarget(m: Message, target: int, k: nat)
    requires 0 < k <= |m| && (k > 1 ==> Words(m[..k]) <= target)
    ensures var n := KeepCount(m, target, k);
            (n > 1 ==> Words(m[..n]) <= target) && (n < |m| ==> Words(m[..n]) + |m[n]| > target)
    decreases |m| - k
  {
    if k < |m| && Words(m[..k]) + |m[k]| <= target {
      assert m[..k + 1][..k] == m[..k];
      KeepWithinTarget(m, target, k + 1);
    }
  }

  /** The loop ends exactly when, from every message on that is one word and an empty sentence split off
      it, the messages that open with a sentence of one word are no more than the budget. Such a
      message is rewritten to itself for as long as it is the longest. */
  lemma BoundEndsIff(src: seq<Message>, budget: int)
    requires AllSplit(src) && forall k | 0 <= k < |src| :: src[k] != []
    ensures Ends(src, budget) <==> Stops(src, budget)
  {
    if Stops(src, budget) {
      var origin := NothingTrimmed(src, budget);
      RoundsEnd(src, origin, budget, 0);
    } else {
      var q: nat :| q < |src| && Unsplittable(src[q]) && |Openers(src, q)| > budget;
      forall n: nat ensures Over(After(src, budget, n), budget) {
        var origin := NeverDone(src, budget, q, n);
      }
    }
  }

  lemma WordsOfTwo(a: Sentence, b: Sentence)
    ensures Words([a, b]) == |a| + |b|
  {
    var m := [a, b];
    assert m[..|m| - 1] == [a];
    assert [a][..0] == [] && Words([a]) == |a|;
  }

  /** One word and a trailing blank, over the budget: the loop never ends. */
  lemma TrailingBlankNeverEnds()
    ensures var src: seq<Message> := [[["ok."], []]]; AllSplit(src) && !Ends(src, 0)
  {
    var m: Message := [["ok."], []];
    var src := [m];
    WordsOfTwo(["ok."], []);
    assert Unsplittable(src[0]);
    OpensWithOne(src, 0);
    assert Openers(src, 0) == {0};
    BoundEndsIff(src, 0);
  }
}
