/**
  The header rewriter of jita/cheader/rewrite.py after its scan: the recorded edits are spliced into
  the text, recorded offsets are moved along, and the result is searched by bisection.
 */
module Rewrite {
  import opened Wrappers

  datatype Edit = Edit(start: nat, end: nat, repl: string)

  function Newlines(s: string): nat
  {
    if s == [] then 0 else Newlines(s[..|s| - 1]) + if s[|s| - 1] == '\n' then 1 else 0
  }

  lemma {:induction false} NewlinesConcat(s: string, t: string)
    ensures Newlines(s + t) == Newlines(s) + Newlines(t)
  {
    if t == [] {
      assert s + t == s;
    } else {
      assert (s + t)[..|s + t| - 1] == s + t[..|t| - 1];
      NewlinesConcat(s, t[..|t| - 1]);
    }
  }

  /** As the scanner records them and `sorted` leaves them: in order, apart, inside the text, keeping lines. */
  predicate ValidEdits(text: string, edits: seq<Edit>)
  {
    && (forall k | 0 <= k < |edits| :: edits[k].start <= edits[k].end <= |text|
          && Newlines(edits[k].repl) == Newlines(text[edits[k].start..edits[k].end]))
    && (forall j, k | 0 <= j < k < |edits| :: edits[j].end <= edits[k].start)
  }

  function Last(edits: seq<Edit>, k: nat): nat
    requires k <= |edits|
  {
    if k == 0 then 0 else edits[k - 1].end
  }

  function Shift(edits: seq<Edit>, k: nat): int
    requires k <= |edits|
  {
    if k == 0 then 0 else Shift(edits, k - 1) + |edits[k - 1].repl| - (edits[k - 1].end - edits[k - 1].start)
  }

  /** The output up to the end of the first k edits. */
  function Spliced(text: string, edits: seq<Edit>, k: nat): string
    requires ValidEdits(text, edits) && k <= |edits|
  {
    if k == 0 then ""
    else
      EditBounds(text, edits, k - 1);
      Spliced(text, edits, k - 1) + text[Last(edits, k - 1)..edits[k - 1].start] + edits[k - 1].repl
  }

  function Output(text: string, edits: seq<Edit>): string
    requires ValidEdits(text, edits)
  {
    LastBound(text, edits, |edits|);
    Spliced(text, edits, |edits|) + text[Last(edits, |edits|)..]
  }

  lemma LastBound(text: string, edits: seq<Edit>, k: nat)
    requires ValidEdits(text, edits) && k <= |edits|
    ensures Last(edits, k) <= |text|
  {
  }

  lemma EditBounds(text: string, edits: seq<Edit>, k: nat)
    requires ValidEdits(text, edits) && k < |edits|
    ensures Last(edits, k) <= edits[k].start <= edits[k].end <= |text|
  {
    if k > 0 {
      assert edits[k - 1].end <= edits[k].start;
    }
  }

  /** How many edits end at or before an offset. */
  function Before(edits: seq<Edit>, o: int): (i: nat)
    ensures i <= |edits|
  {
    if edits == [] then 0
    else if edits[|edits| - 1].end <= o then |edits|
    else Before(edits[..|edits| - 1], o)
  }

  /** The nested `move`. */
  function Move(edits: seq<Edit>, o: int): int
  {
    o + Shift(edits, Before(edits, o))
  }

  lemma {:induction false} BeforeSplits(text: string, edits: seq<Edit>, o: int)
    requires ValidEdits(text, edits)
    ensures forall k | 0 <= k < Before(edits, o) :: edits[k].end <= o
    ensures forall k | Before(edits, o) <= k < |edits| :: o < edits[k].end
  {
    if edits != [] {
      var n := |edits| - 1;
      if edits[n].end <= o {
        forall k | 0 <= k < |edits|
          ensures edits[k].end <= o
        {
          if k < n {
            assert edits[k].end <= edits[n].start;
          }
        }
      } else {
        BeforeSplits(text, edits[..n], o);
      }
    }
  }

  // ----- Where offsets go -----

  /** Not in the inside of a replaced range; its two ends are allowed. */
  predicate Outside(edits: seq<Edit>, o: nat)
  {
    forall k | 0 <= k < |edits| :: !(edits[k].start < o < edits[k].end)
  }

  lemma {:induction false} SplicedLength(text: string, edits: seq<Edit>, k: nat)
    requires ValidEdits(text, edits) && k <= |edits|
    ensures |Spliced(text, edits, k)| == Last(edits, k) + Shift(edits, k)
  {
    if k > 0 {
      EditBounds(text, edits, k - 1);
      SplicedLength(text, edits, k - 1);
    }
  }

  lemma SplicedStep(text: string, edits: seq<Edit>, k: nat)
    requires ValidEdits(text, edits) && k < |edits|
    ensures Last(edits, k) <= edits[k].start <= edits[k].end <= |text|
    ensures Spliced(text, edits, k + 1)
      == Spliced(text, edits, k) + text[Last(edits, k)..edits[k].start] + edits[k].repl
    ensures Shift(edits, k + 1) == Shift(edits, k) + |edits[k].repl| - (edits[k].end - edits[k].start)
  {
    EditBounds(text, edits, k);
  }

  lemma {:induction false} SplicedPrefix(text: string, edits: seq<Edit>, j: nat, k: nat)
    requires ValidEdits(text, edits) && j <= k <= |edits|
    ensures Spliced(text, edits, j) <= Spliced(text, edits, k)
  {
    hide ValidEdits;
    if j < k {
      EditBounds(text, edits, k - 1);
      SplicedPrefix(text, edits, j, k - 1);
      assert Spliced(text, edits, k - 1) <= Spliced(text, edits, k);
    }
  }

  /** Where the text after the first i edits ends: at the next edit, or with the text. */
  function Next(text: string, edits: seq<Edit>, i: nat): nat
    requires i <= |edits|
  {
    if i < |edits| then edits[i].start else |text|
  }

  lemma Gap(text: string, edits: seq<Edit>, i: nat)
    requires ValidEdits(text, edits) && i <= |edits|
    ensures Last(edits, i) <= Next(text, edits, i) <= |text|
  {
    LastBound(text, edits, i);
    if i < |edits| {
      EditBounds(text, edits, i);
    }
  }

  /** The unedited text between two edits stands in the output right after what precedes it. */
  lemma GapInOutput(text: string, edits: seq<Edit>, i: nat)
    requires ValidEdits(text, edits) && i <= |edits|
    ensures Last(edits, i) <= Next(text, edits, i) <= |text|
    ensures Spliced(text, edits, i) + text[Last(edits, i)..Next(text, edits, i)] <= Output(text, edits)
  {
    hide ValidEdits, Spliced;
    Gap(text, edits, i);
    LastBound(text, edits, |edits|);
    var part := Spliced(text, edits, i) + text[Last(edits, i)..Next(text, edits, i)];
    if i < |edits| {
      SplicedStep(text, edits, i);
      PrefixConcat(part, edits[i].repl);
      SplicedPrefix(text, edits, i + 1, |edits|);
      hide Last, Next;
      PrefixConcat(Spliced(text, edits, |edits|), text[Last(edits, |edits|)..]);
      PrefixChain(part, Spliced(text, edits, i + 1), Spliced(text, edits, |edits|));
      PrefixChain(part, Spliced(text, edits, |edits|), Output(text, edits));
    } else {
      assert text[Last(edits, i)..Next(text, edits, i)] == text[Last(edits, i)..];
    }
  }

  lemma PrefixConcat(a: string, b: string)
    ensures a <= a + b
  {
  }

  lemma PrefixChain(a: string, b: string, c: string)
    requires a <= b && b <= c
    ensures a <= c
  {
  }

  lemma OutsideGap(text: string, edits: seq<Edit>, o: nat)
    requires ValidEdits(text, edits) && o <= |text| && Outside(edits, o)
    ensures Last(edits, Before(edits, o)) <= o <= Next(text, edits, Before(edits, o))
  {
    BeforeSplits(text, edits, o);
  }

  /** Before a moved offset lies what was before it: the edits up to there, and the text since. */
  lemma MovedPrefix(text: string, edits: seq<Edit>, o: nat)
    requires ValidEdits(text, edits) && o <= |text| && Outside(edits, o)
    ensures Last(edits, Before(edits, o)) <= o
    ensures 0 <= Move(edits, o) <= |Output(text, edits)|
    ensures Output(text, edits)[..Move(edits, o)]
         == Spliced(text, edits, Before(edits, o)) + text[Last(edits, Before(edits, o))..o]
  {
    hide ValidEdits, Outside, Spliced, Output, Before, Last, Next, Shift;
    var i := Before(edits, o);
    OutsideGap(text, edits, o);
    SplicedLength(text, edits, i);
    GapInOutput(text, edits, i);
    var gap := text[Last(edits, i)..Next(text, edits, i)];
    assert gap[..o - Last(edits, i)] == text[Last(edits, i)..o];
    PrefixOf(Spliced(text, edits, i), gap, Output(text, edits), o - Last(edits, i));
  }

  lemma PrefixOf(a: string, gap: string, whole: string, n: nat)
    requires a + gap <= whole && n <= |gap|
    ensures |a| + n <= |whole| && whole[..|a| + n] == a + gap[..n]
    ensures n < |gap| ==> |a| + n < |whole| && whole[|a| + n] == gap[n]
  {
    assert (a + gap)[..|a| + n] == a + gap[..n];
    assert whole[..|a + gap|] == a + gap;
    assert n < |gap| ==> (a + gap)[|a| + n] == gap[n];
  }

  /** The character at an offset that no edit replaces is found at the moved offset. */
  lemma MovedCharacter(text: string, edits: seq<Edit>, o: nat)
    requires ValidEdits(text, edits) && o < |text|
    requires forall k | 0 <= k < |edits| :: !(edits[k].start <= o < edits[k].end)
    ensures 0 <= Move(edits, o) < |Output(text, edits)| && Output(text, edits)[Move(edits, o)] == text[o]
  {
    var i := Before(edits, o);
    OutsideGap(text, edits, o);
    NotAtEdit(text, edits, o);
    hide ValidEdits, Spliced, Output, Before, Last, Next, Shift;
    SplicedLength(text, edits, i);
    GapInOutput(text, edits, i);
    var gap := text[Last(edits, i)..Next(text, edits, i)];
    assert gap[o - Last(edits, i)] == text[o];
    PrefixOf(Spliced(text, edits, i), gap, Output(text, edits), o - Last(edits, i));
  }

  /** Each replacement stands in the output in place of its range, moved by what the edits before it grew. */
  lemma Replaced(text: string, edits: seq<Edit>, k: nat)
    requires ValidEdits(text, edits) && k < |edits|
    ensures var at, repl := edits[k].start + Shift(edits, k), edits[k].repl;
      0 <= at && at + |repl| <= |Output(text, edits)| && Output(text, edits)[at..at + |repl|] == repl
  {
    hide ValidEdits, Spliced, Shift, Last;
    SplicedStep(text, edits, k);
    SplicedLength(text, edits, k);
    SplicedPrefix(text, edits, k + 1, |edits|);
    var before := Spliced(text, edits, k) + text[Last(edits, k)..edits[k].start];
    assert Spliced(text, edits, k + 1) <= Output(text, edits);
    assert Spliced(text, edits, k + 1)[|before|..] == edits[k].repl;
    assert Output(text, edits)[..|before| + |edits[k].repl|] == Spliced(text, edits, k + 1);
  }

  /** Offsets in a replaced range move along with its start. */
  lemma MovedInside(text: string, edits: seq<Edit>, k: nat, o: nat)
    requires ValidEdits(text, edits) && k < |edits| && edits[k].start <= o < edits[k].end
    ensures Move(edits, o) == o + Shift(edits, k)
  {
    hide Shift;
    BeforeSplits(text, edits, o);
    assert forall j | 0 <= j < k :: edits[j].end <= edits[k].start;
    assert Before(edits, o) <= k;
  }

  lemma NotAtEdit(text: string, edits: seq<Edit>, o: nat)
    requires ValidEdits(text, edits) && o < |text|
    requires forall k | 0 <= k < |edits| :: !(edits[k].start <= o < edits[k].end)
    ensures o < Next(text, edits, Before(edits, o))
  {
    BeforeSplits(text, edits, o);
  }

  lemma {:induction false} SplicedLines(text: string, edits: seq<Edit>, k: nat)
    requires ValidEdits(text, edits) && k <= |edits|
    ensures Last(edits, k) <= |text|
    ensures Newlines(Spliced(text, edits, k)) == Newlines(text[..Last(edits, k)])
  {
    hide Newlines;
    if k == 0 {
      assert text[..0] == "";
    } else {
      EditBounds(text, edits, k - 1);
      EditLines(text, edits, k - 1);
      hide ValidEdits, Spliced;
      SplicedLines(text, edits, k - 1);
      SplicedStep(text, edits, k - 1);
      LinesStep(text, Spliced(text, edits, k - 1), Last(edits, k - 1), edits[k - 1]);
    }
  }

  lemma EditLines(text: string, edits: seq<Edit>, k: nat)
    requires ValidEdits(text, edits) && k < |edits|
    ensures edits[k].start <= edits[k].end <= |text|
    ensures Newlines(edits[k].repl) == Newlines(text[edits[k].start..edits[k].end])
  {
  }

  lemma LinesStep(text: string, before: string, last: nat, e: Edit)
    requires last <= e.start <= e.end <= |text| && Newlines(before) == Newlines(text[..last])
    requires Newlines(e.repl) == Newlines(text[e.start..e.end])
    ensures Newlines(before + text[last..e.start] + e.repl) == Newlines(text[..e.end])
  {
    hide Newlines;
    var gap, old' := text[last..e.start], text[e.start..e.end];
    NewlinesConcat(before + gap, e.repl);
    NewlinesConcat(before, gap);
    assert text[..e.end] == text[..last] + gap + old';
    NewlinesConcat(text[..last] + gap, old');
    NewlinesConcat(text[..last], gap);
  }

  /** Moving keeps the line number. */
  lemma MovedLine(text: string, edits: seq<Edit>, o: nat)
    requires ValidEdits(text, edits) && o <= |text| && Outside(edits, o)
    ensures 0 <= Move(edits, o) <= |Output(text, edits)|
    ensures Newlines(Output(text, edits)[..Move(edits, o)]) == Newlines(text[..o])
  {
    hide ValidEdits, Outside, Spliced, Output, Before, Last, Move, Newlines;
    MovedPrefix(text, edits, o);
    var i := Before(edits, o);
    SplicedLines(text, edits, i);
    NewlinesConcat(Spliced(text, edits, i), text[Last(edits, i)..o]);
    assert text[..o] == text[..Last(edits, i)] + text[Last(edits, i)..o];
    NewlinesConcat(text[..Last(edits, i)], text[Last(edits, i)..o]);
  }

  /** Offsets outside the replaced ranges keep their order. */
  lemma MovedOrder(text: string, edits: seq<Edit>, a: nat, b: nat)
    requires ValidEdits(text, edits) && a <= b <= |text| && Outside(edits, a) && Outside(edits, b)
    ensures Move(edits, a) <= Move(edits, b)
  {
    var i, j := Before(edits, a), Before(edits, b);
    BeforeOrder(edits, a, b);
    OutsideGap(text, edits, a);
    OutsideGap(text, edits, b);
    hide ValidEdits, Outside, Before, Shift, Last;
    if i < j {
      ShiftOrder(text, edits, i, j);
    }
  }

  /** What k edits have put out never shrinks as k grows. */
  lemma ShiftOrder(text: string, edits: seq<Edit>, i: nat, j: nat)
    requires ValidEdits(text, edits) && i < j <= |edits|
    ensures edits[i].start + Shift(edits, i) <= Last(edits, j) + Shift(edits, j)
  {
    hide ValidEdits, Spliced;
    StepLength(edits, i);
    SplicedLength(text, edits, i + 1);
    SplicedLength(text, edits, j);
    SplicedPrefix(text, edits, i + 1, j);
    hide Shift, Last;
  }

  lemma StepLength(edits: seq<Edit>, i: nat)
    requires i < |edits|
    ensures Last(edits, i + 1) + Shift(edits, i + 1) == edits[i].start + Shift(edits, i) + |edits[i].repl|
  {
  }

  lemma {:induction false} BeforeOrder(edits: seq<Edit>, a: nat, b: nat)
    requires a <= b
    ensures Before(edits, a) <= Before(edits, b)
  {
    if edits != [] {
      BeforeOrder(edits[..|edits| - 1], a, b);
    }
  }

  // ----- Order inside replaced ranges -----

  /** By how much the edits that end at p lengthen the text. */
  function GrowthAt(edits: seq<Edit>, p: nat): int
  {
    if edits == [] then 0
    else
      var e := edits[|edits| - 1];
      GrowthAt(edits[..|edits| - 1], p) + if e.end == p then |e.repl| - (e.end - e.start) else 0
  }

  lemma {:induction false} StepGrowth(text: string, edits: seq<Edit>, p: nat)
    requires ValidEdits(text, edits) && 0 < p
    ensures Move(edits, p) == Move(edits, p - 1) + 1 + GrowthAt(edits, p)
  {
    if edits != [] {
      var n := |edits| - 1;
      var front := edits[..n];
      StepGrowth(text, front, p);
      ShiftFront(edits, n, Before(front, p));
      ShiftFront(edits, n, Before(front, p - 1));
      ShiftFront(edits, n, n);
      if edits[n].end <= p {
        AllBefore(text, edits, n, p);
      }
      if edits[n].end <= p - 1 {
        AllBefore(text, edits, n, p - 1);
        NoGrowth(text, edits, n, p);
      }
    }
  }

  lemma {:induction false} ShiftFront(edits: seq<Edit>, n: nat, k: nat)
    requires k <= n <= |edits|
    ensures Shift(edits[..n], k) == Shift(edits, k)
  {
    if k > 0 {
      ShiftFront(edits, n, k - 1);
    }
  }

  lemma AllBefore(text: string, edits: seq<Edit>, n: nat, o: nat)
    requires ValidEdits(text, edits) && n < |edits| && edits[n].end <= o
    ensures Before(edits[..n], o) == n
  {
    if n > 0 {
      assert edits[n - 1].end <= edits[n].start;
    }
  }

  lemma {:induction false} NoGrowth(text: string, edits: seq<Edit>, n: nat, p: nat)
    requires ValidEdits(text, edits) && n < |edits| && edits[n].end < p
    ensures GrowthAt(edits[..n], p) == 0
  {
    if n > 0 {
      assert edits[n - 1].end <= edits[n].start;
      assert edits[..n][..n - 1] == edits[..n - 1];
      NoGrowth(text, edits, n - 1, p);
    }
  }

  ghost predicate Monotone(edits: seq<Edit>, size: nat)
  {
    forall a: nat, b: nat | a <= b <= size :: Move(edits, a) <= Move(edits, b)
  }

  lemma {:induction false} StepsAdd(text: string, edits: seq<Edit>, a: nat, b: nat)
    requires ValidEdits(text, edits) && a <= b && forall p: nat | a < p <= b :: GrowthAt(edits, p) >= -1
    ensures Move(edits, a) <= Move(edits, b)
    decreases b - a
  {
    if a < b {
      StepsAdd(text, edits, a, b - 1);
      StepGrowth(text, edits, b);
    }
  }

  /**
    Over all offsets, the insides of replaced ranges included, moving keeps the order exactly if
    nowhere the edits that end at one place shorten the text by more than one character.
   */
  lemma MonotoneExactly(text: string, edits: seq<Edit>)
    requires ValidEdits(text, edits)
    ensures Monotone(edits, |text|) <==> forall p: nat | 0 < p <= |text| :: GrowthAt(edits, p) >= -1
  {
    if forall p: nat | 0 < p <= |text| :: GrowthAt(edits, p) >= -1 {
      forall a: nat, b: nat | a <= b <= |text|
        ensures Move(edits, a) <= Move(edits, b)
      {
        StepsAdd(text, edits, a, b);
      }
    } else {
      var p: nat :| 0 < p <= |text| && GrowthAt(edits, p) < -1;
      StepGrowth(text, edits, p);
      assert Move(edits, p - 1) > Move(edits, p);
    }
  }

  /**
    A function body that `;` replaces: the offset of its `}` moves beyond the offset after it. The
    rewriter itself records no offset inside a replaced range, so it never moves one.
   */
  lemma BodyNotMonotone()
    ensures var edits := [Edit(3, 7, ";")];
      ValidEdits("f(){ab}", edits) && Move(edits, 6) == 6 && Move(edits, 7) == 4 && !Monotone(edits, 7)
  {
    var edits := [Edit(3, 7, ";")];
    assert Newlines(";") == 0 by { assert ";"[..0] == ""; }
    assert Newlines("{ab}") == 0 by {
      assert "{ab}"[..3] == "{ab" && "{ab"[..2] == "{a" && "{a"[..1] == "{" && "{"[..0] == "";
    }
    assert "f(){ab}"[3..7] == "{ab}";
    assert edits[..0] == [];
    assert Move(edits, 6) == 6 && Move(edits, 7) == 4;
  }

  // ----- Lines -----

  /** Where each line starts: at 0, and after each newline. */
  function LineStarts(text: string): (starts: seq<int>)
    ensures |starts| == Newlines(text) + 1
  {
    if text == [] then [0]
    else LineStarts(text[..|text| - 1]) + if text[|text| - 1] == '\n' then [|text|] else []
  }

  /** The start of the line that an offset is on. */
  function LineStart(text: string, o: nat): (start: nat)
    requires o <= |text|
    ensures start <= o
  {
    if o == 0 || text[o - 1] == '\n' then o else LineStart(text, o - 1)
  }

  lemma {:induction false} StartsPrefix(text: string, o: nat)
    requires o <= |text|
    ensures LineStarts(text[..o]) <= LineStarts(text)
  {
    if o < |text| {
      StartsPrefix(text[..|text| - 1], o);
      assert text[..|text| - 1][..o] == text[..o];
    } else {
      assert text[..o] == text;
    }
  }

  lemma {:induction false} LastStart(text: string, o: nat)
    requires o <= |text|
    ensures LineStarts(text[..o])[Newlines(text[..o])] == LineStart(text, o)
  {
    if o > 0 {
      assert text[..o][..o - 1] == text[..o - 1];
      LastStart(text, o - 1);
    }
  }

  /** The table has, under the number of newlines before an offset, the start of its line. */
  lemma LineStartAt(text: string, o: nat)
    requires o <= |text|
    ensures Newlines(text[..o]) < |LineStarts(text)| && LineStarts(text)[Newlines(text[..o])] == LineStart(text, o)
  {
    hide LineStarts, LineStart, Newlines;
    StartsPrefix(text, o);
    LastStart(text, o);
  }

  /** A 1 based line and column, as parsers count them. */
  predicate IsPosition(text: string, o: nat, line: int, column: int)
    requires o <= |text|
  {
    line == Newlines(text[..o]) + 1 && column == o - LineStart(text, o) + 1
  }

  // ----- Braces -----

  datatype Brace = Brace(offset: int, open: bool)

  /** How many more braces open than close from brace j up to brace m. */
  function Balance(bs: seq<Brace>, j: nat, m: nat): int
    requires j <= m <= |bs|
    decreases m
  {
    if j == m then 0 else Balance(bs, j, m - 1) + if bs[m - 1].open then 1 else -1
  }

  /** Brace j opens, and is still open after the first m braces. */
  predicate OpenAt(bs: seq<Brace>, j: nat, m: nat)
    requires j < m <= |bs|
  {
    forall q | j < q <= m :: Balance(bs, j, q) >= 1
  }

  /** `r` is the offset of the innermost brace open after the first m braces, or -1. */
  predicate IsInnermost(bs: seq<Brace>, m: nat, r: int)
    requires m <= |bs|
  {
    || (r == -1 && forall j | 0 <= j < m :: !OpenAt(bs, j, m))
    || exists j | 0 <= j < m :: OpenAt(bs, j, m) && bs[j].offset == r && forall i | j < i < m :: !OpenAt(bs, i, m)
  }

  /** `open_stack` after m braces, as brace numbers. */
  function Stack(bs: seq<Brace>, m: nat): (st: seq<nat>)
    requires m <= |bs|
    ensures forall k | 0 <= k < |st| :: st[k] < m
  {
    if m == 0 then []
    else
      var st := Stack(bs, m - 1);
      if bs[m - 1].open then st + [m - 1] else if st != [] then st[..|st| - 1] else st
  }

  predicate StackOk(bs: seq<Brace>, m: nat, st: seq<nat>)
    requires m <= |bs|
  {
    && (forall k | 0 <= k < |st| :: st[k] < m && Balance(bs, st[k], m) == |st| - k && OpenAt(bs, st[k], m))
    && (forall i, k | 0 <= i < k < |st| :: st[i] < st[k])
    && (forall j | 0 <= j < m && OpenAt(bs, j, m) :: j in st)
  }

  /** The stack holds exactly the open braces, outermost first. */
  lemma {:induction false} StackMeans(bs: seq<Brace>, m: nat)
    requires m <= |bs|
    ensures StackOk(bs, m, Stack(bs, m))
  {
    if m > 0 {
      StackMeans(bs, m - 1);
      var st, now := Stack(bs, m - 1), Stack(bs, m);
      assert Pushed(bs, m, st, now);
      StackOrdered(bs, m, st, now);
      hide Stack, OpenAt, Balance, Pushed;
      forall k | 0 <= k < |now|
        ensures now[k] < m && Balance(bs, now[k], m) == |now| - k && OpenAt(bs, now[k], m)
      {
        StackEntry(bs, m, st, now, k);
      }
      forall j | 0 <= j < m && OpenAt(bs, j, m)
        ensures j in now
      {
        OpenStays(bs, m, st, now, j);
      }
    }
  }

  lemma StackOrdered(bs: seq<Brace>, m: nat, st: seq<nat>, now: seq<nat>)
    requires 0 < m <= |bs| && StackOk(bs, m - 1, st) && Pushed(bs, m, st, now)
    ensures forall i, k | 0 <= i < k < |now| :: now[i] < now[k]
  {
  }

  predicate Pushed(bs: seq<Brace>, m: nat, st: seq<nat>, now: seq<nat>)
    requires 0 < m <= |bs|
  {
    now == if bs[m - 1].open then st + [m - 1] else if st != [] then st[..|st| - 1] else st
  }

  /** Each entry of the stack after one more brace. */
  lemma StackEntry(bs: seq<Brace>, m: nat, st: seq<nat>, now: seq<nat>, k: nat)
    requires 0 < m <= |bs| && StackOk(bs, m - 1, st) && Pushed(bs, m, st, now) && k < |now|
    ensures now[k] < m && Balance(bs, now[k], m) == |now| - k && OpenAt(bs, now[k], m)
  {
    if k < |st| {
      assert Balance(bs, st[k], m - 1) == |st| - k && OpenAt(bs, st[k], m - 1);
      EntryStays(bs, m, st[k]);
    }
  }

  lemma EntryStays(bs: seq<Brace>, m: nat, j: nat)
    requires j < m - 1 && m <= |bs| && OpenAt(bs, j, m - 1) && Balance(bs, j, m) >= 1
    ensures OpenAt(bs, j, m)
  {
  }

  /** What is open after one more brace was open before, or is that brace. */
  lemma OpenStays(bs: seq<Brace>, m: nat, st: seq<nat>, now: seq<nat>, j: nat)
    requires 0 < m <= |bs| && j < m && OpenAt(bs, j, m) && StackOk(bs, m - 1, st)
    requires Pushed(bs, m, st, now)
    ensures j in now
  {
    assert Balance(bs, j, m) >= 1;
    if j < m - 1 {
      StillOpen(bs, j, m);
      var k :| 0 <= k < |st| && st[k] == j;
      assert now[k] == j;
    } else {
      assert now[|now| - 1] == j;
    }
  }

  lemma StillOpen(bs: seq<Brace>, j: nat, m: nat)
    requires j < m - 1 && m <= |bs| && OpenAt(bs, j, m)
    ensures OpenAt(bs, j, m - 1)
  {
  }

  function Top(bs: seq<Brace>, m: nat): int
    requires m <= |bs|
  {
    var st := Stack(bs, m);
    if st == [] then -1 else bs[st[|st| - 1]].offset
  }

  lemma TopIsInnermost(bs: seq<Brace>, m: nat)
    requires m <= |bs|
    ensures IsInnermost(bs, m, Top(bs, m))
  {
    StackMeans(bs, m);
    hide Stack, OpenAt, Balance;
    var st := Stack(bs, m);
    if st != [] {
      var j := st[|st| - 1];
      assert forall k | 0 <= k < |st| :: st[k] <= j;
      assert forall i | j < i < m :: i !in st;
      assert OpenAt(bs, j, m) && bs[j].offset == Top(bs, m);
    }
  }

  // ----- Lookup -----

  predicate Sorted(a: seq<int>)
  {
    forall i, j | 0 <= i < j < |a| :: a[i] <= a[j]
  }

  /** `bisect.bisect_right` */
  method BisectRight(a: seq<int>, x: int) returns (i: nat)
    requires Sorted(a)
    ensures i <= |a|
    ensures forall k | 0 <= k < i :: a[k] <= x
    ensures forall k | i <= k < |a| :: x < a[k]
  {
    var lo, hi := 0, |a|;
    while lo < hi
      invariant 0 <= lo <= hi <= |a|
      invariant forall k | 0 <= k < lo :: a[k] <= x
      invariant forall k | hi <= k < |a| :: x < a[k]
    {
      var mid := (lo + hi) / 2;
      if x < a[mid] {
        hi := mid;
      } else {
        lo := mid + 1;
      }
    }
    i := lo;
  }

  /** Exactly the first i offsets lie at or before o. */
  predicate Upto(offsets: seq<int>, i: int, o: int)
  {
    && 0 <= i <= |offsets|
    && (forall k | 0 <= k < i :: offsets[k] <= o)
    && (forall k | i <= k < |offsets| :: o < offsets[k])
  }

  /** One after the other, as the scanner leaves them. */
  predicate Ordered(spans: seq<(int, int)>)
  {
    && (forall i | 0 <= i < |spans| :: spans[i].0 <= spans[i].1)
    && (forall i, j | 0 <= i < j < |spans| :: spans[i].1 <= spans[j].0)
  }

  /** An attribute that the rewrite did not drop. `body` is -1 outside of structs and unions. */
  datatype Attr = Attr(kind: string, text: string, offset: int, value: int, body: int, start: int, end: int)

  function MovedAttr(edits: seq<Edit>, at: Attr): Attr
  {
    at.(offset := Move(edits, at.offset), body := Move(edits, at.body), start := Move(edits, at.start),
        end := Move(edits, at.end))
  }

  /** No body stays no body: no edit ends before the text. */
  lemma NoBodyStays(edits: seq<Edit>, at: Attr)
    requires at.body == -1
    ensures MovedAttr(edits, at).body == -1
  {
    NoneBefore(edits);
  }

  lemma {:induction false} NoneBefore(edits: seq<Edit>)
    ensures Before(edits, -1) == 0
  {
    if edits != [] {
      NoneBefore(edits[..|edits| - 1]);
    }
  }

  class Rewritten {
    var text: string
    var attrs: seq<Attr>
    var spans: seq<(int, int)>
    var spanStarts: seq<int>
    var braceOffsets: seq<int>
    var braceInner: seq<int>
    var lineStarts: seq<int>

    constructor (text: string, attrs: seq<Attr>, spans: seq<(int, int)>, braces: seq<(int, int)>)
      requires Ordered(spans) && Sorted(seq(|braces|, i requires 0 <= i < |braces| => braces[i].0))
      ensures Valid() && this.text == text && this.attrs == attrs && this.spans == spans
      ensures |braceOffsets| == |braces|
      ensures forall i | 0 <= i < |braces| :: braceOffsets[i] == braces[i].0 && braceInner[i] == braces[i].1
    {
      this.text, this.attrs, this.spans := text, attrs, spans;
      spanStarts := seq(|spans|, i requires 0 <= i < |spans| => spans[i].0);
      braceOffsets := seq(|braces|, i requires 0 <= i < |braces| => braces[i].0);
      braceInner := seq(|braces|, i requires 0 <= i < |braces| => braces[i].1);
      lineStarts := LineStarts(text);
    }

    predicate Valid()
      reads this
    {
      && Ordered(spans) && |spanStarts| == |spans| && (forall i | 0 <= i < |spans| :: spanStarts[i] == spans[i].0)
      && Sorted(braceOffsets) && |braceInner| == |braceOffsets| && lineStarts == LineStarts(text)
    }

    /** The offset of a parser's position; a line that the text does not have is an IndexError. */
    method Offset(line: int, column: int) returns (o: int)
      requires Valid() && 1 <= line <= |lineStarts|
      ensures forall p: nat | p <= |text| && IsPosition(text, p, line, column) :: o == p
    {
      o := lineStarts[line - 1] + column - 1;
      forall p: nat | p <= |text| && IsPosition(text, p, line, column)
        ensures o == p
      {
        LineStartAt(text, p);
      }
    }

    /** As a scan of all spans would find it: the span around the offset, or none. */
    method SpanIndex(offset: int) returns (r: Option<nat>)
      requires Valid()
      ensures r.Some? ==> r.value < |spans| && spans[r.value].0 <= offset < spans[r.value].1
      ensures r.None? ==> forall i | 0 <= i < |spans| :: !(spans[i].0 <= offset < spans[i].1)
    {
      assert Sorted(spanStarts);
      var i := BisectRight(spanStarts, offset);
      if i >= 1 && offset < spans[i - 1].1 {
        return Some(i - 1);
      }
      forall k | 0 <= k < |spans|
        ensures !(spans[k].0 <= offset < spans[k].1)
      {
        if k + 1 < i {
          assert spans[k].1 <= spans[i - 1].0;
        }
        assert spanStarts[k] == spans[k].0;
      }
      return None;
    }

    /** The entry of the last brace at or before the offset. */
    method BodyOf(offset: int) returns (r: int)
      requires Valid()
      ensures exists i :: Upto(braceOffsets, i, offset) && r == if i == 0 then -1 else braceInner[i - 1]
    {
      var i := BisectRight(braceOffsets, offset);
      assert Upto(braceOffsets, i, offset);
      r := if i >= 1 then braceInner[i - 1] else -1;
    }
  }

  // ----- The whole rewrite -----

  predicate OutsideSpan(edits: seq<Edit>, size: nat, span: (nat, nat))
  {
    span.0 <= span.1 <= size && Outside(edits, span.0) && Outside(edits, span.1)
  }

  /** What the scanner records besides the edits: spans and braces in order, none inside a replaced range. */
  predicate ValidScan(text: string, edits: seq<Edit>, spans: seq<(nat, nat)>, braces: seq<(nat, bool)>)
  {
    && ValidEdits(text, edits)
    && (forall i | 0 <= i < |spans| :: OutsideSpan(edits, |text|, spans[i]))
    && (forall i, j | 0 <= i < j < |spans| :: spans[i].1 <= spans[j].0)
    && (forall i | 0 <= i < |braces| :: braces[i].0 <= |text| && Outside(edits, braces[i].0))
    && (forall i, j | 0 <= i < j < |braces| :: braces[i].0 <= braces[j].0)
  }

  function MovedBraces(edits: seq<Edit>, braces: seq<(nat, bool)>): seq<Brace>
  {
    seq(|braces|, i requires 0 <= i < |braces| => Brace(Move(edits, braces[i].0), braces[i].1))
  }

  function MovedSpans(edits: seq<Edit>, spans: seq<(nat, nat)>): seq<(int, int)>
  {
    seq(|spans|, i requires 0 <= i < |spans| => (Move(edits, spans[i].0), Move(edits, spans[i].1)))
  }

  lemma ScanMoves(text: string, edits: seq<Edit>, spans: seq<(nat, nat)>, braces: seq<(nat, bool)>)
    requires ValidScan(text, edits, spans, braces)
    ensures Ordered(MovedSpans(edits, spans))
    ensures forall i, j | 0 <= i < j < |braces| ::
      MovedBraces(edits, braces)[i].offset <= MovedBraces(edits, braces)[j].offset
  {
    hide ValidEdits, Outside, Move;
    forall i | 0 <= i < |spans|
      ensures MovedSpans(edits, spans)[i].0 <= MovedSpans(edits, spans)[i].1
    {
      assert OutsideSpan(edits, |text|, spans[i]);
      MovedOrder(text, edits, spans[i].0, spans[i].1);
    }
    forall i, j | 0 <= i < j < |spans|
      ensures MovedSpans(edits, spans)[i].1 <= MovedSpans(edits, spans)[j].0
    {
      assert OutsideSpan(edits, |text|, spans[i]) && OutsideSpan(edits, |text|, spans[j]);
      MovedOrder(text, edits, spans[i].1, spans[j].0);
    }
    forall i, j | 0 <= i < j < |braces|
      ensures MovedBraces(edits, braces)[i].offset <= MovedBraces(edits, braces)[j].offset
    {
      MovedOrder(text, edits, braces[i].0, braces[j].0);
    }
  }

  /** The nested `move`: a bisection of the edits' ends and the shift after them. */
  method MoveBy(ends: seq<int>, shifts: seq<int>, o: int, ghost text: string, ghost edits: seq<Edit>) returns (r: int)
    requires ValidEdits(text, edits) && |ends| == |shifts| == |edits|
    requires forall k | 0 <= k < |edits| :: ends[k] == edits[k].end && shifts[k] == Shift(edits, k + 1)
    ensures r == Move(edits, o)
  {
    forall i, j | 0 <= i < j < |ends|
      ensures ends[i] <= ends[j]
    {
      EditBounds(text, edits, j);
      assert edits[i].end <= edits[j].start;
    }
    hide ValidEdits;
    var i := BisectRight(ends, o);
    BeforeSplits(text, edits, o);
    BeforeIs(edits, o, i);
    hide Shift;
    r := o + if i >= 1 then shifts[i - 1] else 0;
    assert Shift(edits, 0) == 0 by { ShiftZero(edits); }
  }

  lemma ShiftZero(edits: seq<Edit>)
    ensures Shift(edits, 0) == 0
  {
  }

  lemma BeforeIs(edits: seq<Edit>, o: int, i: nat)
    requires i <= |edits|
    requires forall k | 0 <= k < i :: edits[k].end <= o
    requires forall k | i <= k < |edits| :: o < edits[k].end
    requires forall k | 0 <= k < Before(edits, o) :: edits[k].end <= o
    requires forall k | Before(edits, o) <= k < |edits| :: o < edits[k].end
    ensures Before(edits, o) == i
  {
    hide Before;
    var b := Before(edits, o);
    assert b < |edits| ==> o < edits[b].end;
    assert i < |edits| ==> o < edits[i].end;
  }

  lemma SplicedStarts(text: string, edits: seq<Edit>)
    requires ValidEdits(text, edits)
    ensures Spliced(text, edits, 0) == "" && Shift(edits, 0) == 0
  {
  }

  /** The loop over the edits. */
  method Splice(text: string, edits: seq<Edit>) returns (output: string, ends: seq<int>, shifts: seq<int>)
    requires ValidEdits(text, edits)
    ensures output == Output(text, edits) && |ends| == |shifts| == |edits|
    ensures forall k | 0 <= k < |edits| :: ends[k] == edits[k].end && shifts[k] == Shift(edits, k + 1)
  {
    hide ValidEdits, Spliced, Shift;
    SplicedStarts(text, edits);
    output, ends, shifts := "", [], [];
    var last, shift := 0, 0;
    for k := 0 to |edits|
      invariant output == Spliced(text, edits, k) && last == Last(edits, k) && shift == Shift(edits, k)
      invariant |ends| == |shifts| == k
      invariant forall j | 0 <= j < k :: ends[j] == edits[j].end && shifts[j] == Shift(edits, j + 1)
    {
      EditBounds(text, edits, k);
      SplicedStep(text, edits, k);
      var e := edits[k];
      output := output + text[last..e.start] + e.repl;
      last := e.end;
      shift := shift + |e.repl| - (e.end - e.start);
      ends := ends + [e.end];
      shifts := shifts + [shift];
    }
    LastBound(text, edits, |edits|);
    output := output + text[last..];
  }

  /** The stack as `rewrite` keeps it: the offsets of the open braces. */
  function OpenOffsets(bs: seq<Brace>, m: nat): seq<int>
    requires m <= |bs|
  {
    var st := Stack(bs, m);
    seq(|st|, k requires 0 <= k < |st| => bs[st[k]].offset)
  }

  lemma StackStep(bs: seq<Brace>, i: nat)
    requires i < |bs|
    ensures var now, next := OpenOffsets(bs, i), OpenOffsets(bs, i + 1);
      && next == (if bs[i].open then now + [bs[i].offset] else if now != [] then now[..|now| - 1] else now)
      && Top(bs, i + 1) == if next != [] then next[|next| - 1] else -1
  {
    var now, next := OpenOffsets(bs, i), OpenOffsets(bs, i + 1);
    assert |now| == |Stack(bs, i)| && |next| == |Stack(bs, i + 1)|;
  }

  lemma NoneOpen(bs: seq<Brace>)
    ensures OpenOffsets(bs, 0) == []
  {
  }

  /** The loop over the braces with its stack of open ones. */
  method InnerBraces(bs: seq<Brace>) returns (table: seq<(int, int)>)
    ensures |table| == |bs|
    ensures forall i | 0 <= i < |bs| :: table[i] == (bs[i].offset, Top(bs, i + 1))
  {
    table := [];
    var openStack: seq<int> := [];
    hide Stack, Top, OpenOffsets;
    NoneOpen(bs);
    for i := 0 to |bs|
      invariant |table| == i && forall j | 0 <= j < i :: table[j] == (bs[j].offset, Top(bs, j + 1))
      invariant openStack == OpenOffsets(bs, i)
    {
      StackStep(bs, i);
      if bs[i].open {
        openStack := openStack + [bs[i].offset];
      } else if openStack != [] {
        openStack := openStack[..|openStack| - 1];
      }
      table := table + [(bs[i].offset, if openStack != [] then openStack[|openStack| - 1] else -1)];
    }
  }

  method MoveAttrs(ends: seq<int>, shifts: seq<int>, attrs: seq<Attr>, ghost text: string, ghost edits: seq<Edit>)
    returns (moved: seq<Attr>)
    requires ValidEdits(text, edits) && |ends| == |shifts| == |edits|
    requires forall k | 0 <= k < |edits| :: ends[k] == edits[k].end && shifts[k] == Shift(edits, k + 1)
    ensures |moved| == |attrs| && forall i | 0 <= i < |attrs| :: moved[i] == MovedAttr(edits, attrs[i])
  {
    hide ValidEdits, Move, Shift;
    moved := [];
    for i := 0 to |attrs|
      invariant |moved| == i && forall j | 0 <= j < i :: moved[j] == MovedAttr(edits, attrs[j])
    {
      var at := attrs[i];
      var offset := MoveBy(ends, shifts, at.offset, text, edits);
      var body := MoveBy(ends, shifts, at.body, text, edits);
      var start := MoveBy(ends, shifts, at.start, text, edits);
      var end := MoveBy(ends, shifts, at.end, text, edits);
      moved := moved + [at.(offset := offset, body := body, start := start, end := end)];
    }
  }

  /** `rewrite` on what the scanner recorded. */
  method Run(text: string, edits: seq<Edit>, attrs: seq<Attr>, spans: seq<(nat, nat)>, braces: seq<(nat, bool)>)
    returns (rw: Rewritten)
    requires ValidScan(text, edits, spans, braces)
    ensures fresh(rw) && rw.Valid() && ValidEdits(text, edits) && rw.text == Output(text, edits)
    ensures |rw.spans| == |spans| && forall i | 0 <= i < |spans| ::
              rw.spans[i] == (Move(edits, spans[i].0), Move(edits, spans[i].1))
    ensures |rw.attrs| == |attrs| && forall i | 0 <= i < |attrs| ::
              && var at := attrs[i];
              rw.attrs[i] == Attr(at.kind, at.text, Move(edits, at.offset), at.value, Move(edits, at.body),
                                  Move(edits, at.start), Move(edits, at.end))
    ensures forall i | 0 <= i < |attrs| && attrs[i].body == -1 :: rw.attrs[i].body == -1
    ensures |rw.braceOffsets| == |braces|
    ensures forall i | 0 <= i < |braces| ::
              && rw.braceOffsets[i] == Move(edits, braces[i].0)
              && IsInnermost(seq(|braces|, k requires 0 <= k < |braces| =>
                               Brace(Move(edits, braces[k].0), braces[k].1)), i + 1, rw.braceInner[i])
  {
    hide ValidEdits, Output, Move, IsInnermost, Top, Outside;
    var output, ends, shifts := Splice(text, edits);
    ScanMoves(text, edits, spans, braces);
    var movedAttrs := MoveAttrs(ends, shifts, attrs, text, edits);
    var moved: seq<(int, int)> := [];
    for i := 0 to |spans|
      invariant |moved| == i && forall j | 0 <= j < i :: moved[j] == MovedSpans(edits, spans)[j]
    {
      var start := MoveBy(ends, shifts, spans[i].0, text, edits);
      var end := MoveBy(ends, shifts, spans[i].1, text, edits);
      moved := moved + [(start, end)];
    }
    assert moved == MovedSpans(edits, spans);
    var bs: seq<Brace> := [];
    for i := 0 to |braces|
      invariant |bs| == i && forall j | 0 <= j < i :: bs[j] == MovedBraces(edits, braces)[j]
    {
      var offset := MoveBy(ends, shifts, braces[i].0, text, edits);
      bs := bs + [Brace(offset, braces[i].1)];
    }
    assert bs == MovedBraces(edits, braces);
    var table := InnerBraces(bs);
    forall i | 0 <= i < |bs|
      ensures IsInnermost(bs, i + 1, table[i].1)
    {
      TopIsInnermost(bs, i + 1);
    }
    forall i | 0 <= i < |attrs| && attrs[i].body == -1
      ensures movedAttrs[i].body == -1
    {
      NoBodyStays(edits, attrs[i]);
    }
    rw := new Rewritten(output, movedAttrs, moved, table);
  }
}