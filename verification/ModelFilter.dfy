/** backend/gen-models.py: what is kept of a generated Go file, namely each type declaration
    with the comment lines above it. */
module ModelFilter {
  import opened Wrappers

  type Line = string

  const HEADER: seq<Line> := ["package models\n", "\n"]

  predicate StartsWith(s: string, prefix: string) {
    |prefix| <= |s| && s[..|prefix|] == prefix
  }

  predicate EndsWith(s: string, suffix: string) {
    |suffix| <= |s| && s[|s| - |suffix|..] == suffix
  }

  /** Python's `strip("\n")`. */
  function Strip(s: string): string {
    if s == "" then ""
    else if s[0] == '\n' then Strip(s[1..])
    else if s[|s| - 1] == '\n' then Strip(s[..|s| - 1])
    else s
  }

  predicate IsType(l: Line) { StartsWith(l, "type ") }
  predicate IsComment(l: Line) { StartsWith(l, "// ") }
  predicate Opens(l: Line) { EndsWith(Strip(l), " struct {") }
  predicate Closes(l: Line) { Strip(l) == "}" }

  /** The declaration line `at`, with everything that is kept around it. */
  datatype Block = Block(start: nat, at: nat, end: nat)

  // ----- the search loops -----

  /** The first closing line after `i`. */
  function FindEndOf(lines: seq<Line>, i: nat): (r: Option<nat>)
    requires i < |lines|
    ensures r.Some? ==> i < r.value < |lines| && Closes(lines[r.value])
    ensures r.Some? ==> forall j :: i < j < r.value ==> !Closes(lines[j])
    ensures r.None? ==> forall j :: i < j < |lines| ==> !Closes(lines[j])
    decreases |lines| - i
  {
    if i + 1 == |lines| then None
    else if Closes(lines[i + 1]) then Some(i + 1)
    else FindEndOf(lines, i + 1)
  }

  method FindEnd(lines: seq<Line>, i: nat) returns (r: Option<nat>)
    requires i < |lines|
    ensures r == FindEndOf(lines, i)
  {
    for j := i + 1 to |lines|
      invariant FindEndOf(lines, i) == FindEndOf(lines, j - 1)
    {
      if Closes(lines[j]) {
        return Some(j);
      }
    }
    return None;
  }

  /** The line above which something else than a comment stands; `i` when there is no such
      line, even if there are comments. */
  function FindStartOf(lines: seq<Line>, i: nat): (r: nat)
    requires i < |lines|
    ensures r <= i && forall j :: r <= j < i ==> IsComment(lines[j])
    ensures (forall j :: 0 <= j < i ==> IsComment(lines[j])) ==> r == i
    ensures (exists j :: 0 <= j < i && !IsComment(lines[j])) ==> r > 0 && !IsComment(lines[r - 1])
  {
    ScanUp(lines, i, i)
  }

  function ScanUp(lines: seq<Line>, i: nat, j: nat): (r: nat)
    requires j <= i < |lines| && forall k :: j <= k < i ==> IsComment(lines[k])
    ensures r <= i && forall k :: r <= k < i ==> IsComment(lines[k])
    ensures (forall k :: 0 <= k < i ==> IsComment(lines[k])) ==> r == i
    ensures (exists k :: 0 <= k < i && !IsComment(lines[k])) ==> r > 0 && !IsComment(lines[r - 1])
  {
    if j == 0 then i else if !IsComment(lines[j - 1]) then j else ScanUp(lines, i, j - 1)
  }

  method FindStart(lines: seq<Line>, i: nat) returns (r: nat)
    requires i < |lines|
    ensures r == FindStartOf(lines, i)
  {
    var j := i;
    while j > 0
      invariant 0 <= j <= i && forall k :: j <= k < i ==> IsComment(lines[k])
      invariant FindStartOf(lines, i) == ScanUp(lines, i, j)
    {
      j := j - 1;
      if !IsComment(lines[j]) {
        return j + 1;
      }
    }
    return i;
  }

  // ----- what is kept -----

  /** The block of the declaration in line `i`; nothing when it is never closed. */
  function BlockOf(lines: seq<Line>, i: nat): (r: Option<Block>)
    requires i < |lines|
    ensures r.Some? ==> r.value.start <= r.value.at == i <= r.value.end < |lines|
  {
    if !Opens(lines[i]) then Some(Block(FindStartOf(lines, i), i, i))
    else
      var end := FindEndOf(lines, i);
      if end.None? then None else Some(Block(FindStartOf(lines, i), i, end.value))
  }

  predicate Within(lines: seq<Line>, blocks: seq<Block>) {
    forall b :: b in blocks ==> b.start <= b.at <= b.end < |lines|
  }

  function Blocks(lines: seq<Line>, i: nat): (r: Option<seq<Block>>)
    ensures r.Some? ==> Within(lines, r.value)
    decreases |lines| - i
  {
    if i >= |lines| then Some([])
    else if !IsType(lines[i]) then Blocks(lines, i + 1)
    else
      var b := BlockOf(lines, i);
      if b.None? then None
      else
        var rest := Blocks(lines, b.value.end + 1);
        if rest.None? then None else Some([b.value] + rest.value)
  }

  function Text(lines: seq<Line>, blocks: seq<Block>): seq<Line>
    requires Within(lines, blocks)
  {
    if blocks == [] then []
    else lines[blocks[0].start..blocks[0].end + 1] + Text(lines, blocks[1..])
  }

  function Kept(lines: seq<Line>, i: nat): Option<seq<Line>> {
    var blocks := Blocks(lines, i);
    if blocks.None? then None else Some(Text(lines, blocks.value))
  }

  function Filtered(lines: seq<Line>): Option<seq<Line>> {
    var kept := Kept(lines, 0);
    if kept.None? then None else Some(HEADER + kept.value)
  }

  /** process_lines; no result where the Python code adds 1 to None. */
  method ProcessLines(lines: seq<Line>) returns (r: Option<seq<Line>>)
    ensures r == Filtered(lines)
  {
    hide IsType, Opens, FindStartOf, FindEndOf;
    var i := 0;
    var outs := HEADER;
    while i < |lines|
      invariant Kept(lines, i).None? <==> Filtered(lines).None?
      invariant Kept(lines, i).Some? ==> Filtered(lines).value == outs + Kept(lines, i).value
    {
      if IsType(lines[i]) {
        var start := FindStart(lines, i);
        var end := i;
        if Opens(lines[i]) {
          var found := FindEnd(lines, i);
          if found.None? {
            return None;
          }
          end := found.value;
        }
        KeptStep(lines, i, outs, start, end);
        outs := outs + lines[start..end + 1];
        i := end;
      }
      i := i + 1;
    }
    assert outs + [] == outs;
    return Some(outs);
  }

  lemma KeptStep(lines: seq<Line>, i: nat, outs: seq<Line>, start: nat, end: nat)
    requires i < |lines| && IsType(lines[i]) && BlockOf(lines, i) == Some(Block(start, i, end))
    ensures Kept(lines, i).None? <==> Kept(lines, end + 1).None?
    ensures Kept(lines, i).Some? ==>
              outs + Kept(lines, i).value == outs + lines[start..end + 1] + Kept(lines, end + 1).value
  {
    hide IsType, BlockOf;
    var rest := Blocks(lines, end + 1);
    if rest.Some? {
      var all := [Block(start, i, end)] + rest.value;
      assert all[1..] == rest.value;
      assert Text(lines, all) == lines[start..end + 1] + Text(lines, rest.value);
    }
  }

  // ----- the blocks -----

  lemma {:induction false} StripIsInside(s: string)
    ensures forall c :: c in Strip(s) ==> c in s
    ensures forall c :: c in s && c != '\n' ==> c in Strip(s)
  {
    if s == "" {
    } else if s[0] == '\n' {
      assert s == [s[0]] + s[1..];
      StripIsInside(s[1..]);
    } else if s[|s| - 1] == '\n' {
      assert s == s[..|s| - 1] + [s[|s| - 1]];
      StripIsInside(s[..|s| - 1]);
    }
  }

  lemma FirstChar(s: string, prefix: string)
    requires prefix != ""
    ensures StartsWith(s, prefix) ==> s != "" && s[0] == prefix[0]
  {
    assert StartsWith(s, prefix) ==> s[..|prefix|][0] == s[0];
  }

  /** A block ends in a line that no search for comments passes. */
  lemma EndsInNoComment(l: Line)
    requires IsType(l) || Closes(l)
    ensures !IsComment(l)
  {
    FirstChar(l, "// ");
    FirstChar(l, "type ");
    StripIsInside(l);
    assert '/' !in "}";
  }

  lemma NoTypeCloses(l: Line)
    ensures !(IsType(l) && Closes(l))
  {
    FirstChar(l, "type ");
    StripIsInside(l);
    assert 't' !in "}";
  }

  /** Each block ends before the next begins, all after `i` begin after it, and none of the
      declarations outside them is lost. */
  ghost predicate InOrderFrom(lines: seq<Line>, blocks: seq<Block>, i: nat) {
    && (forall k :: 0 <= k < |blocks| ==> i <= blocks[k].at)
    && (forall k, m :: 0 <= k < m < |blocks| ==> blocks[k].end < blocks[m].start)
    && (forall t :: i <= t < |lines| && IsType(lines[t]) ==>
          exists k :: 0 <= k < |blocks| && blocks[k].at <= t <= blocks[k].end)
  }

  lemma StartsAfter(lines: seq<Line>, i: nat, j: nat)
    requires j < i < |lines| && !IsComment(lines[j])
    ensures FindStartOf(lines, i) > j
  {
  }

  lemma BlockEnd(lines: seq<Line>, i: nat)
    requires i < |lines| && IsType(lines[i]) && BlockOf(lines, i).Some?
    ensures !IsComment(lines[BlockOf(lines, i).value.end])
  {
    hide Closes, IsType, IsComment;
    EndsInNoComment(lines[BlockOf(lines, i).value.end]);
  }

  lemma {:induction false} BlocksAreDisjoint(lines: seq<Line>, i: nat)
    requires Blocks(lines, i).Some?
    ensures InOrderFrom(lines, Blocks(lines, i).value, i)
    ensures AreBlocks(lines, Blocks(lines, i).value)
    decreases |lines| - i
  {
    hide IsType, BlockOf, InOrderFrom, AreBlocks;
    if i >= |lines| {
      NoBlocks(lines, i);
    } else if !IsType(lines[i]) {
      BlocksAreDisjoint(lines, i + 1);
      NoBlockHere(lines, Blocks(lines, i).value, i);
    } else {
      var b := BlockOf(lines, i).value;
      var rest := Blocks(lines, b.end + 1).value;
      BlocksAreDisjoint(lines, b.end + 1);
      BlockAhead(lines, i, rest);
    }
  }

  /** Each is the block of a declaration. */
  ghost predicate AreBlocks(lines: seq<Line>, blocks: seq<Block>) {
    forall b :: b in blocks ==> b.at < |lines| && IsType(lines[b.at]) && BlockOf(lines, b.at) == Some(b)
  }

  lemma NoBlocks(lines: seq<Line>, i: nat)
    requires i >= |lines|
    ensures InOrderFrom(lines, [], i) && AreBlocks(lines, [])
  {
  }

  lemma NoBlockHere(lines: seq<Line>, blocks: seq<Block>, i: nat)
    requires i < |lines| && !IsType(lines[i]) && InOrderFrom(lines, blocks, i + 1)
    ensures InOrderFrom(lines, blocks, i)
  {
    hide IsType;
  }

  /** A block goes before those that begin after its end. */
  lemma BlockAhead(lines: seq<Line>, i: nat, rest: seq<Block>)
    requires i < |lines| && IsType(lines[i]) && BlockOf(lines, i).Some?
    requires InOrderFrom(lines, rest, BlockOf(lines, i).value.end + 1) && AreBlocks(lines, rest)
    ensures var all := [BlockOf(lines, i).value] + rest;
            InOrderFrom(lines, all, i) && AreBlocks(lines, all)
  {
    hide IsType, IsComment, BlockOf, FindStartOf, InOrderFrom;
    var b := BlockOf(lines, i).value;
    BlockEnd(lines, i);
    InOrderAfter(lines, rest, b.end + 1);
    forall k | 0 <= k < |rest|
      ensures b.end < rest[k].start
    {
      assert rest[k] in rest;
      StartOfBlock(lines, rest[k].at);
      StartsAfter(lines, rest[k].at, b.end);
    }
    Prepend(lines, b, rest);
  }

  lemma InOrderAfter(lines: seq<Line>, blocks: seq<Block>, i: nat)
    requires InOrderFrom(lines, blocks, i)
    ensures forall k :: 0 <= k < |blocks| ==> i <= blocks[k].at
  {
  }

  lemma StartOfBlock(lines: seq<Line>, i: nat)
    requires i < |lines| && BlockOf(lines, i).Some?
    ensures BlockOf(lines, i).value.start == FindStartOf(lines, i)
  {
  }

  lemma Prepend(lines: seq<Line>, b: Block, rest: seq<Block>)
    requires b.at <= b.end && InOrderFrom(lines, rest, b.end + 1)
    requires forall k :: 0 <= k < |rest| ==> b.end < rest[k].start
    ensures InOrderFrom(lines, [b] + rest, b.at)
  {
    hide IsType;
    var all := [b] + rest;
    assert all[0] == b && forall k, m :: 0 <= k < |rest| && m == k + 1 ==> all[m] == rest[k];
    forall t | b.at <= t < |lines| && IsType(lines[t])
      ensures exists k :: 0 <= k < |all| && all[k].at <= t <= all[k].end
    {
      if t <= b.end {
        assert all[0].at <= t <= all[0].end;
      } else {
        var k :| 0 <= k < |rest| && rest[k].at <= t <= rest[k].end;
        assert all[k + 1] == rest[k];
      }
    }
  }

  /** The script fails exactly when some struct is opened with no closing line below it. */
  lemma {:induction false} FailsIff(lines: seq<Line>, i: nat)
    ensures Blocks(lines, i).None? <==>
            exists t :: i <= t < |lines| && IsType(lines[t]) && Opens(lines[t]) && FindEndOf(lines, t).None?
    decreases |lines| - i
  {
    hide IsType, Opens;
    if i < |lines| {
      if !IsType(lines[i]) {
        FailsIff(lines, i + 1);
      } else if BlockOf(lines, i).Some? {
        NoTypeCloses(lines[BlockOf(lines, i).value.end]);
        FailsIff(lines, BlockOf(lines, i).value.end + 1);
      }
    }
  }

  // ----- filtering twice -----

  lemma {:induction false} SkipTo(lines: seq<Line>, i: nat, t: nat)
    requires i <= t <= |lines| && forall k :: i <= k < t ==> !IsType(lines[k])
    ensures Blocks(lines, i) == Blocks(lines, t)
    decreases t - i
  {
    if i < t {
      SkipTo(lines, i + 1, t);
    }
  }

  lemma CommentIsNoType(l: Line)
    requires IsComment(l)
    ensures !IsType(l)
  {
    FirstChar(l, "// ");
    FirstChar(l, "type ");
  }

  /** From `at` on, `out` repeats the lines from `i` to `end`. */
  predicate Repeats(lines: seq<Line>, i: nat, end: nat, out: seq<Line>, at: nat) {
    && end < |lines|
    && at + end - i < |out|
    && forall k, m :: i <= k <= end && m == at + (k - i) ==> out[m] == lines[k]
  }

  lemma {:induction false} EndMoves(lines: seq<Line>, i: nat, out: seq<Line>, t: nat, end: nat)
    requires i < |lines| && t < |out|
    requires FindEndOf(lines, i) == Some(end) && Repeats(lines, i, end, out, t)
    ensures FindEndOf(out, t) == Some(t + end - i)
    decreases end - i
  {
    assert out[t + 1] == lines[i + 1];
    if !Closes(lines[i + 1]) {
      EndMoves(lines, i + 1, out, t + 1, end);
    }
  }

  lemma StartMoves(out: seq<Line>, p: nat, t: nat)
    requires 0 < p <= t < |out| && !IsComment(out[p - 1])
    requires forall k :: p <= k < t ==> IsComment(out[k])
    ensures FindStartOf(out, t) == p
  {
  }

  lemma CopyRepeats(lines: seq<Line>, b: Block, pre: seq<Line>, rest: seq<Line>)
    requires b.start <= b.at <= b.end < |lines|
    ensures var out := pre + lines[b.start..b.end + 1] + rest;
            && Repeats(lines, b.start, b.at, out, |pre|)
            && Repeats(lines, b.at, b.end, out, |pre| + b.at - b.start)
            && (pre != [] ==> out[|pre| - 1] == pre[|pre| - 1])
  {
  }

  lemma CommentsMove(lines: seq<Line>, start: nat, i: nat, out: seq<Line>, p: nat)
    requires start <= i && Repeats(lines, start, i, out, p)
    requires forall k :: start <= k < i ==> IsComment(lines[k])
    ensures forall m :: p <= m < p + i - start ==> IsComment(out[m]) && !IsType(out[m])
    ensures out[p + i - start] == lines[i]
  {
    hide IsComment, IsType;
    forall m | p <= m < p + i - start
      ensures IsComment(out[m]) && !IsType(out[m])
    {
      var k := start + (m - p);
      assert out[m] == lines[k];
      CommentIsNoType(out[m]);
    }
  }

  /** The block of line `i`, copied behind something that is no comment, is found again. */
  lemma BlockMoves(lines: seq<Line>, i: nat, pre: seq<Line>, rest: seq<Line>)
    requires i < |lines| && IsType(lines[i]) && BlockOf(lines, i).Some?
    requires pre != [] && !IsComment(pre[|pre| - 1])
    ensures var b := BlockOf(lines, i).value;
            var out := pre + lines[b.start..b.end + 1] + rest;
            var t := |pre| + i - b.start;
            && t < |out|
            && out[t] == lines[i]
            && (forall k :: |pre| <= k < t ==> !IsType(out[k]))
            && BlockOf(out, t) == Some(Block(|pre|, t, t + b.end - i))
  {
    hide IsType, IsComment, Opens, Closes, Repeats;
    var b := BlockOf(lines, i).value;
    var out := pre + lines[b.start..b.end + 1] + rest;
    var t := |pre| + i - b.start;
    CopyRepeats(lines, b, pre, rest);
    CommentsMove(lines, b.start, i, out, |pre|);
    StartMoves(out, |pre|, t);
    if Opens(lines[i]) {
      EndMoves(lines, i, out, t, b.end);
    }
  }

  /** Copying one block, and then the rest, keeps what is kept. */
  lemma KeptPrefix(lines: seq<Line>, i: nat, pre: seq<Line>, rest: seq<Line>)
    requires i < |lines| && IsType(lines[i]) && BlockOf(lines, i).Some?
    requires pre != [] && !IsComment(pre[|pre| - 1])
    ensures var b := BlockOf(lines, i).value;
            var next := pre + lines[b.start..b.end + 1];
            var again := Kept(next + rest, |next|);
            Kept(next + rest, |pre|) == if again.None? then None else Some(lines[b.start..b.end + 1] + again.value)
  {
    hide IsType, IsComment, BlockOf, Kept, Text;
    var b := BlockOf(lines, i).value;
    var block := lines[b.start..b.end + 1];
    var next := pre + block;
    var out := next + rest;
    var t := |pre| + i - b.start;
    BlockMoves(lines, i, pre, rest);
    SkipTo(out, |pre|, t);
    SameKept(out, |pre|, t);
    KeptStep(out, t, [], |pre|, |next| - 1);
    assert out[|pre|..|next|] == block;
    PlainStep(Kept(out, t), Kept(out, |next|), block);
  }

  lemma PlainStep(all: Option<seq<Line>>, rest: Option<seq<Line>>, block: seq<Line>)
    requires all.None? <==> rest.None?
    requires all.Some? ==> [] + all.value == [] + block + rest.value
    ensures all == if rest.None? then None else Some(block + rest.value)
  {
    if all.Some? {
      assert [] + all.value == all.value && [] + block == block;
    }
  }

  lemma {:induction false} KeptIsKeptAgain(lines: seq<Line>, i: nat, pre: seq<Line>)
    requires Kept(lines, i).Some?
    requires pre != [] && !IsComment(pre[|pre| - 1])
    ensures Kept(pre + Kept(lines, i).value, |pre|) == Kept(lines, i)
    decreases |lines| - i
  {
    hide IsType, IsComment, BlockOf;
    if i < |lines| && !IsType(lines[i]) {
      KeptIsKeptAgain(lines, i + 1, pre);
    } else if i < |lines| {
      hide Kept;
      OneBlockAgain(lines, i, pre);
    }
  }

  lemma {:induction false} OneBlockAgain(lines: seq<Line>, i: nat, pre: seq<Line>)
    requires i < |lines| && IsType(lines[i]) && Kept(lines, i).Some?
    requires pre != [] && !IsComment(pre[|pre| - 1])
    ensures Kept(pre + Kept(lines, i).value, |pre|) == Kept(lines, i)
    decreases |lines| - i, 0
  {
    hide IsType, IsComment, BlockOf, Kept;
    assert BlockOf(lines, i).Some? by { KeptNeedsBlock(lines, i); }
    var b := BlockOf(lines, i).value;
    var block := lines[b.start..b.end + 1];
    KeptStep(lines, i, [], b.start, b.end);
    PlainStep(Kept(lines, i), Kept(lines, b.end + 1), block);
    var rest := Kept(lines, b.end + 1).value;
    BlockEnd(lines, i);
    assert block[|block| - 1] == lines[b.end];
    var next := pre + block;
    KeptIsKeptAgain(lines, b.end + 1, next);
    KeptPrefix(lines, i, pre, rest);
    assert pre + Kept(lines, i).value == next + rest;
  }

  lemma KeptNeedsBlock(lines: seq<Line>, i: nat)
    requires i < |lines| && IsType(lines[i]) && Kept(lines, i).Some?
    ensures BlockOf(lines, i).Some?
  {
  }

  /** Filtering what was filtered changes nothing. */
  lemma FilteringTwice(lines: seq<Line>)
    requires Filtered(lines).Some?
    ensures Filtered(Filtered(lines).value) == Filtered(lines)
  {
    hide Kept;
    var out := Filtered(lines).value;
    assert out[0] == HEADER[0] && out[1] == HEADER[1];
    FirstChar(out[0], "type ");
    FirstChar(out[1], "type ");
    FirstChar(out[1], "// ");
    SkipTo(out, 0, 2);
    KeptIsKeptAgain(lines, 0, HEADER);
    SameKept(out, 0, 2);
  }

  lemma SameKept(lines: seq<Line>, i: nat, t: nat)
    requires Blocks(lines, i) == Blocks(lines, t)
    ensures Kept(lines, i) == Kept(lines, t)
  {
  }

  // ----- a file, line by line -----

  const SOURCE: seq<Line> := [
    "typed := 1\n",
    "// A is kept\n",
    "type A struct {\n",
    "\tX struct {\n",
    "\t}\n",
    "}\n",
    "//go:x\n",
    "type B interface {\n"]

  lemma Stripped(s: string)
    requires s != "" && s[0] != '\n' && s[|s| - 1] != '\n'
    ensures Strip(s + "\n") == s
  {
    assert (s + "\n")[..|s|] == s;
  }

  /** Of this file the two declarations stay, with the comment above the first: neither the indented
      brace ends it, nor is a directive above the second a comment, nor does that open a struct. */
  lemma SourceIsFiltered()
    ensures Filtered(SOURCE)
            == Some(["package models\n", "\n", "// A is kept\n", "type A struct {\n", "\tX struct {\n", "\t}\n", "}\n",
                     "type B interface {\n"])
  {
    hide Strip, StartsWith, EndsWith, Blocks, Text, FindStartOf, FindEndOf;
    LinesOfSource();
    BlocksOfSource();
    TextOfSource();
    assert HEADER + ["// A is kept\n", "type A struct {\n", "\tX struct {\n", "\t}\n", "}\n", "type B interface {\n"]
           == ["package models\n", "\n", "// A is kept\n", "type A struct {\n", "\tX struct {\n", "\t}\n", "}\n",
               "type B interface {\n"];
  }

  lemma LinesOfSource()
    ensures forall i :: 0 <= i < 8 ==> (IsType(SOURCE[i]) <==> i == 2 || i == 7)
    ensures forall i :: 0 <= i < 8 ==> (IsComment(SOURCE[i]) <==> i == 1)
    ensures Opens(SOURCE[2]) && !Opens(SOURCE[7])
    ensures !Closes(SOURCE[3]) && !Closes(SOURCE[4]) && Closes(SOURCE[5])
  {
    TypesOfSource();
    BracesOfSource();
  }

  lemma TypesOfSource()
    ensures forall i :: 0 <= i < 8 ==> (IsType(SOURCE[i]) <==> i == 2 || i == 7)
    ensures forall i :: 0 <= i < 8 ==> (IsComment(SOURCE[i]) <==> i == 1)
  {
    hide Strip;
    forall i | 0 <= i < 8
      ensures IsType(SOURCE[i]) <==> i == 2 || i == 7
      ensures IsComment(SOURCE[i]) <==> i == 1
    {
      FirstChar(SOURCE[i], "type ");
      FirstChar(SOURCE[i], "// ");
      if i == 6 {
        assert SOURCE[6][..3][2] == 'g' && "// "[2] == ' ';
      }
      if i == 0 {
        assert SOURCE[0][..5][4] == 'd' && "type "[4] == ' ';
      }
    }
  }

  lemma BracesOfSource()
    ensures Opens(SOURCE[2]) && !Opens(SOURCE[7])
    ensures !Closes(SOURCE[3]) && !Closes(SOURCE[4]) && Closes(SOURCE[5])
  {
    hide Strip;
    Stripped("type A struct {");
    Stripped("type B interface {");
    Stripped("\tX struct {");
    Stripped("\t}");
    Stripped("}");
    assert SOURCE[2] == "type A struct {" + "\n" && SOURCE[7] == "type B interface {" + "\n";
    assert SOURCE[3] == "\tX struct {" + "\n" && SOURCE[4] == "\t}" + "\n" && SOURCE[5] == "}" + "\n";
    assert "type A struct {"[6..] == " struct {";
    assert "type B interface {"[9..][0] == 't' && " struct {"[0] == ' ';
  }

  lemma BlocksOfSource()
    ensures Blocks(SOURCE, 0) == Some([Block(1, 2, 5), Block(7, 7, 7)])
  {
    hide IsType, IsComment, Opens, Closes, FindStartOf, FindEndOf;
    LinesOfSource();
    EndOfSource();
    SkipTo(SOURCE, 0, 2);
    SkipTo(SOURCE, 6, 7);
    assert BlockOf(SOURCE, 2) == Some(Block(1, 2, 5)) && BlockOf(SOURCE, 7) == Some(Block(7, 7, 7));
    assert [Block(7, 7, 7)] + [] == [Block(7, 7, 7)];
    assert Blocks(SOURCE, 8) == Some([]);
    assert Blocks(SOURCE, 7) == Some([Block(7, 7, 7)]);
    assert [Block(1, 2, 5)] + [Block(7, 7, 7)] == [Block(1, 2, 5), Block(7, 7, 7)];
  }

  lemma EndOfSource()
    ensures FindEndOf(SOURCE, 2) == Some(5) && FindStartOf(SOURCE, 2) == 1 && FindStartOf(SOURCE, 7) == 7
  {
    hide IsType, IsComment, Opens, Closes, FindStartOf, FindEndOf;
    LinesOfSource();
    assert IsComment(SOURCE[1]) && !IsComment(SOURCE[0]) && !IsComment(SOURCE[6]);
  }

  lemma TextOfSource()
    ensures Within(SOURCE, [Block(1, 2, 5), Block(7, 7, 7)])
    ensures Text(SOURCE, [Block(1, 2, 5), Block(7, 7, 7)])
            == ["// A is kept\n", "type A struct {\n", "\tX struct {\n", "\t}\n", "}\n", "type B interface {\n"]
  {
    var blocks := [Block(1, 2, 5), Block(7, 7, 7)];
    assert blocks[1..] == [Block(7, 7, 7)] && blocks[1..][1..] == [];
    assert Text(SOURCE, blocks[1..]) == SOURCE[7..8] + [];
    assert SOURCE[1..6] == ["// A is kept\n", "type A struct {\n", "\tX struct {\n", "\t}\n", "}\n"];
    assert SOURCE[7..8] == ["type B interface {\n"];
  }
}
