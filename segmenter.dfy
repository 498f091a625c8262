/**
 * The answer segmenter `split_string`: the text inside fenced code blocks
 * first, one item per block with its language line dropped, then the
 * sentences of the prose that is left once the blocks and the Markdown
 * heading lines are removed. Three copies of it exist; two return the items
 * as a list of strings, one wraps every item in a one-element list.
 */
module Segmenter {
  import opened Wrappers
  import opened PyStr

  const Fence: string := "```"

  /** The first pair that ```(.*?)``` (with `.` matching newlines) matches in
      `s`: the leftmost opening fence, and the first fence after it as the
      closing one. */
  function NextPair(s: string): (r: Option<(nat, nat)>)
    ensures r.Some? ==> r.value.0 + 3 <= r.value.1 && r.value.1 + 3 <= |s|
  {
    match Find(s, Fence, 0)
    case None => None
    case Some(o) =>
      match Find(s, Fence, o + 3)
      case None => None
      case Some(c) => Some((o, c))
  }

  /** The pair found is made of the leftmost fence and the first fence after
      it; when none is found, no fence is followed by another. */
  lemma NextPairSpec(s: string)
    ensures NextPair(s).Some? ==>
      OccursAt(s, Fence, NextPair(s).value.0) && OccursAt(s, Fence, NextPair(s).value.1)
    ensures NextPair(s).Some? ==>
      forall k :: 0 <= k < NextPair(s).value.0 ==> !OccursAt(s, Fence, k)
    ensures NextPair(s).Some? ==>
      forall k :: NextPair(s).value.0 + 3 <= k < NextPair(s).value.1 ==> !OccursAt(s, Fence, k)
    ensures NextPair(s).None? ==> NoPair(s)
  {
  }

  /** No two fences, the second starting after the first ends. */
  ghost predicate NoPair(t: string) {
    forall o, c :: 0 <= o && o + 3 <= c && OccursAt(t, Fence, o) ==> !OccursAt(t, Fence, c)
  }

  /** The outcome of the fence scan: the text inside each matched pair (what
      `re.findall` returns) and the text around the pairs (what `re.sub`
      keeps), one gap more than there are blocks. */
  datatype Segments = Segments(blocks: seq<string>, gaps: seq<string>)

  /** The fence scan of `s`. After a pair the regular-expression engine goes on
      at the end of the closing fence; the pattern has no anchor and no
      lookbehind, so that is the scan of the text after the pair. */
  function Scan(s: string): (r: Segments)
    ensures |r.gaps| == |r.blocks| + 1
    decreases |s|
  {
    var p := NextPair(s);
    if p.None? then Segments([], [s])
    else
      var rest := Scan(s[p.value.1 + 3..]);
      Segments([s[p.value.0 + 3..p.value.1]] + rest.blocks, [s[..p.value.0]] + rest.gaps)
  }

  /** The gaps and the blocks put back together, each block between two fences. */
  function Weave(gaps: seq<string>, blocks: seq<string>): string
    requires |gaps| == |blocks| + 1
  {
    if blocks == [] then gaps[0]
    else gaps[0] + Fence + blocks[0] + Fence + Weave(gaps[1..], blocks[1..])
  }

  /** One step of the scan: the pair found gives the first block and gap. */
  lemma ScanStep(s: string)
    requires NextPair(s).Some?
    ensures Scan(s).blocks ==
      [s[NextPair(s).value.0 + 3..NextPair(s).value.1]] + Scan(s[NextPair(s).value.1 + 3..]).blocks
    ensures Scan(s).gaps == [s[..NextPair(s).value.0]] + Scan(s[NextPair(s).value.1 + 3..]).gaps
  {
  }

  /** Nothing is lost or added: the text is its gaps and fenced blocks in order. */
  lemma {:induction false} ScanWeaves(s: string)
    ensures Weave(Scan(s).gaps, Scan(s).blocks) == s
    decreases |s|
  {
    var p := NextPair(s);
    if p.Some? {
      var o, c := p.value.0, p.value.1;
      var t := s[c + 3..];
      var rest := Scan(t);
      ScanStep(s);
      WeaveCons(s[..o], s[o + 3..c], rest.gaps, rest.blocks);
      NextPairSpec(s);
      FencedSlices(s, o, c);
      ScanWeaves(t);
    }
  }

  /** Weaving one more gap and block in front. */
  lemma WeaveCons(g: string, b: string, gaps: seq<string>, blocks: seq<string>)
    requires |gaps| == |blocks| + 1
    ensures Weave([g] + gaps, [b] + blocks) == g + Fence + b + Fence + Weave(gaps, blocks)
  {
    assert ([g] + gaps)[1..] == gaps && ([b] + blocks)[1..] == blocks;
  }

  /** A text holding a fence pair, cut at the two fences. */
  lemma FencedSlices(s: string, o: nat, c: nat)
    requires o + 3 <= c && c + 3 <= |s|
    requires OccursAt(s, Fence, o) && OccursAt(s, Fence, c)
    ensures s == s[..o] + Fence + s[o + 3..c] + Fence + s[c + 3..]
  {
    assert s == s[..o] + s[o..o + 3] + s[o + 3..c] + s[c..c + 3] + s[c + 3..];
  }

  /** The pieces are the leftmost non-greedy pairs: no block and no gap but
      the last holds a fence, and the last gap holds no pair of fences (an
      unmatched fence stays in it). */
  lemma {:induction false} ScanFenceFree(s: string)
    ensures forall i :: 0 <= i < |Scan(s).blocks| ==> !Contains(Scan(s).blocks[i], Fence)
    ensures forall i :: 0 <= i < |Scan(s).blocks| ==> !Contains(Scan(s).gaps[i], Fence)
    ensures NoPair(Scan(s).gaps[|Scan(s).blocks|])
    decreases |s|
  {
    var p := NextPair(s);
    NextPairSpec(s);
    if p.Some? {
      var o, c := p.value.0, p.value.1;
      var rest := Scan(s[c + 3..]);
      ScanStep(s);
      NoOccurrenceInSlice(s, Fence, o + 3, c);
      NoOccurrenceInSlice(s, Fence, 0, o);
      assert s[0..o] == s[..o];
      ScanFenceFree(s[c + 3..]);
      FenceFreeCons(s[o + 3..c], s[..o], rest);
    }
  }

  /** Fence-freeness of a scan with one more fence-free block and gap in front. */
  lemma FenceFreeCons(b: string, g: string, rest: Segments)
    requires |rest.gaps| == |rest.blocks| + 1
    requires !Contains(b, Fence) && !Contains(g, Fence)
    requires forall i :: 0 <= i < |rest.blocks| ==> !Contains(rest.blocks[i], Fence)
    requires forall i :: 0 <= i < |rest.blocks| ==> !Contains(rest.gaps[i], Fence)
    requires NoPair(rest.gaps[|rest.blocks|])
    ensures forall i :: 0 <= i < |rest.blocks| + 1 ==> !Contains(([b] + rest.blocks)[i], Fence)
    ensures forall i :: 0 <= i < |rest.blocks| + 1 ==> !Contains(([g] + rest.gaps)[i], Fence)
    ensures NoPair(([g] + rest.gaps)[|rest.blocks| + 1])
  {
    assert ([g] + rest.gaps)[|rest.blocks| + 1] == rest.gaps[|rest.blocks|];
  }

  /** Text with a single fence and no other backtick has no block: the fence
      stays in the prose. */
  lemma UnmatchedFenceStays(a: string, b: string)
    requires '`' !in a && '`' !in b
    ensures Scan(a + Fence + b) == Segments([], [a + Fence + b])
  {
    var s := a + Fence + b;
    FindSkips(s, Fence, 0, |a|);
    assert s[|a|..|a| + 3] == Fence;
    FindSkips(s, Fence, |a| + 3, |s|);
    assert NextPair(s) == None;
  }

  /** `re.sub(r'^#+.*$', '', t, flags=re.MULTILINE)`: a line that starts with
      '#' is emptied up to its newline, which stays. */
  function DropHeadings(t: string): string
    decreases |t|
  {
    var line := Before(t, '\n');
    (if line != [] && line[0] == '#' then [] else line) +
    (if |line| == |t| then [] else "\n" + DropHeadings(t[|line| + 1..]))
  }

  /** `t.split('\n')`. */
  function Lines(t: string): (r: seq<string>)
    ensures |r| >= 1
    decreases |t|
  {
    var line := Before(t, '\n');
    if |line| == |t| then [t] else [line] + Lines(t[|line| + 1..])
  }

  /** `'\n'.join(ls)`. */
  function JoinLines(ls: seq<string>): string
    requires |ls| >= 1
  {
    if |ls| == 1 then ls[0] else ls[0] + "\n" + JoinLines(ls[1..])
  }

  /** A line as the heading pattern leaves it. */
  function Unheaded(line: string): string {
    if line != [] && line[0] == '#' then [] else line
  }

  /** Every line as the heading pattern leaves it. */
  function UnheadAll(ls: seq<string>): (r: seq<string>)
    ensures |r| == |ls| && forall i :: 0 <= i < |ls| ==> r[i] == Unheaded(ls[i])
  {
    seq(|ls|, i requires 0 <= i < |ls| => Unheaded(ls[i]))
  }

  /** One step of the line split: the first line, then the lines of the rest. */
  lemma LinesStep(t: string)
    requires |Before(t, '\n')| < |t|
    ensures Lines(t) == [Before(t, '\n')] + Lines(t[|Before(t, '\n')| + 1..])
  {
  }

  /** One step of the join. */
  lemma JoinLinesCons(x: string, ls: seq<string>)
    requires |ls| >= 1
    ensures JoinLines([x] + ls) == x + "\n" + JoinLines(ls)
  {
    assert ([x] + ls)[1..] == ls;
  }

  /** Splitting at newlines and joining again gives the text back. */
  lemma {:induction false} LinesJoin(t: string)
    ensures JoinLines(Lines(t)) == t
    decreases |t|
  {
    var line := Before(t, '\n');
    if |line| < |t| {
      var rest := t[|line| + 1..];
      assert t == line + "\n" + rest by {
        assert t == t[..|line|] + [t[|line|]] + rest;
      }
      calc {
        JoinLines(Lines(t));
      == { LinesStep(t); }
        JoinLines([line] + Lines(rest));
      == { JoinLinesCons(line, Lines(rest)); }
        line + "\n" + JoinLines(Lines(rest));
      == { LinesJoin(rest); }
        line + "\n" + rest;
      }
    } else {
      assert Lines(t) == [t];
    }
  }

  /** Joining newline-free lines and splitting again gives the lines back. */
  lemma {:induction false} JoinSplits(ls: seq<string>)
    requires |ls| >= 1 && forall i :: 0 <= i < |ls| ==> '\n' !in ls[i]
    ensures Lines(JoinLines(ls)) == ls
  {
    if |ls| > 1 {
      var t := JoinLines(ls);
      var tail := JoinLines(ls[1..]);
      assert t == ls[0] + ("\n" + tail);
      BeforeStopsAt(ls[0], "\n" + tail, '\n');
      assert t[|ls[0]| + 1..] == tail;
      assert forall i :: 0 <= i < |ls[1..]| ==> '\n' !in ls[1..][i] by {
        forall i | 0 <= i < |ls[1..]| ensures '\n' !in ls[1..][i] {
          assert ls[1..][i] == ls[i + 1];
        }
      }
      calc {
        Lines(t);
      == { LinesStep(t); }
        [ls[0]] + Lines(tail);
      == { JoinSplits(ls[1..]); }
        [ls[0]] + ls[1..];
      }
      assert [ls[0]] + ls[1..] == ls;
    } else {
      assert |Before(ls[0], '\n')| == |ls[0]|;
    }
  }

  /** Heading removal works line by line: the lines of the result are the
      lines of the input, a line starting with '#' emptied. */
  lemma {:induction false} DropHeadingsByLine(t: string)
    ensures DropHeadings(t) == JoinLines(UnheadAll(Lines(t)))
    decreases |t|
  {
    var line := Before(t, '\n');
    if |line| < |t| {
      var rest := t[|line| + 1..];
      DropHeadingsByLine(rest);
      assert UnheadAll(Lines(t))[1..] == UnheadAll(Lines(rest));
    }
  }

  /** No line of the result is a heading line, and there are as many lines as before. */
  lemma NoHeadingLeft(t: string)
    ensures |Lines(DropHeadings(t))| == |Lines(t)|
    ensures forall i :: 0 <= i < |Lines(t)| ==> Lines(DropHeadings(t))[i] == Unheaded(Lines(t)[i])
    ensures forall i :: 0 <= i < |Lines(DropHeadings(t))| ==>
      Lines(DropHeadings(t))[i] == [] || Lines(DropHeadings(t))[i][0] != '#'
  {
    DropHeadingsByLine(t);
    LinesNewlineFree(t);
    JoinSplits(UnheadAll(Lines(t)));
  }

  /** A line never holds a newline. */
  lemma {:induction false} LinesNewlineFree(t: string)
    ensures forall i :: 0 <= i < |Lines(t)| ==> '\n' !in Lines(t)[i]
    decreases |t|
  {
    var line := Before(t, '\n');
    if |line| < |t| {
      LinesNewlineFree(t[|line| + 1..]);
    }
  }

  /** One step of the heading scan: the first line, then the rest of the text. */
  lemma DropHeadingsStep(t: string)
    requires |Before(t, '\n')| < |t|
    ensures DropHeadings(t) ==
      Unheaded(Before(t, '\n')) + ("\n" + DropHeadings(t[|Before(t, '\n')| + 1..]))
  {
  }

  /** Text without '#' has no heading line to remove. */
  lemma {:induction false} NoHashUnchanged(t: string)
    requires '#' !in t
    ensures DropHeadings(t) == t
    decreases |t|
  {
    var line := Before(t, '\n');
    NoHashFirstLine(t);
    if |line| < |t| {
      var rest := t[|line| + 1..];
      assert t == line + ("\n" + rest) by {
        assert t == t[..|line|] + ([t[|line|]] + rest);
      }
      calc {
        DropHeadings(t);
      == { DropHeadingsStep(t); }
        Unheaded(line) + ("\n" + DropHeadings(rest));
      == { NoHashUnchanged(rest); }
        line + ("\n" + rest);
      }
    }
  }

  /** Without '#', the first line is no heading and the rest holds no '#'. */
  lemma NoHashFirstLine(t: string)
    requires '#' !in t
    ensures Unheaded(Before(t, '\n')) == Before(t, '\n')
    ensures |Before(t, '\n')| < |t| ==> '#' !in t[|Before(t, '\n')| + 1..]
  {
    var line := Before(t, '\n');
    assert line != [] ==> line[0] == t[0];
    if |line| < |t| {
      var rest := t[|line| + 1..];
      forall k | 0 <= k < |rest| ensures rest[k] != '#' {
        assert rest[k] == t[|line| + 1 + k];
      }
    }
  }

  /** The characters after which the sentence pattern may split. */
  predicate Terminator(c: char) {
    c == '.' || c == '?' || c == '!'
  }

  /** `(?<!\w\.\w.)(?<![A-Z][a-z]\.)(?<=\.|\?|\!)\s` matches the character at
      `k`: a whitespace after a terminator, unless the four characters before
      it look like "e.g." or the three before it like "Mr.". */
  predicate SplitAt(t: string, k: nat)
    requires k < |t|
  {
    IsSpace(t[k]) && k >= 1 && Terminator(t[k - 1]) &&
    !(k >= 4 && IsWordChar(t[k - 4]) && t[k - 3] == '.' && IsWordChar(t[k - 2]) && t[k - 1] != '\n') &&
    !(k >= 3 && 'A' <= t[k - 3] <= 'Z' && 'a' <= t[k - 2] <= 'z' && t[k - 1] == '.')
  }

  /** The scan of `re.split` with that pattern: the current piece started at
      `start`, and `k` is the next position tried. */
  function SplitFrom(t: string, start: nat, k: nat): (r: seq<string>)
    requires start <= k <= |t|
    ensures |r| >= 1
    decreases |t| - k
  {
    if k == |t| then [t[start..]]
    else if SplitAt(t, k) then [t[start..k]] + SplitFrom(t, k + 1, k + 1)
    else SplitFrom(t, start, k + 1)
  }

  /** `re.split(pattern, t)`. */
  function Sentences(t: string): (r: seq<string>)
    ensures |r| >= 1
  {
    SplitFrom(t, 0, 0)
  }

  /** The positions at or after `k` where the pattern matches, in increasing order. */
  function Cuts(t: string, k: nat): seq<nat>
    requires k <= |t|
    decreases |t| - k
  {
    if k == |t| then [] else (if SplitAt(t, k) then [k] else []) + Cuts(t, k + 1)
  }

  /** Increasing positions of `t`, all at or after `start`. */
  predicate ValidCuts(t: string, start: nat, cuts: seq<nat>) {
    (forall i :: 0 <= i < |cuts| ==> start <= cuts[i] < |t|) &&
    (forall i, j :: 0 <= i < j < |cuts| ==> cuts[i] < cuts[j])
  }

  /** The cut positions are increasing, and they are exactly the positions
      at or after `k` where the pattern matches. */
  lemma {:induction false} CutsExact(t: string, k: nat)
    requires k <= |t|
    ensures ValidCuts(t, k, Cuts(t, k))
    ensures forall p :: p in Cuts(t, k) <==> k <= p < |t| && SplitAt(t, p)
    decreases |t| - k
  {
    if k < |t| {
      CutsExact(t, k + 1);
    }
  }

  /** The pieces of `t[start..]` between the cut positions, the cut characters dropped. */
  function Pieces(t: string, start: nat, cuts: seq<nat>): (r: seq<string>)
    requires start <= |t| && ValidCuts(t, start, cuts)
    ensures |r| == |cuts| + 1
    decreases |cuts|
  {
    if cuts == [] then [t[start..]]
    else [t[start..cuts[0]]] + Pieces(t, cuts[0] + 1, cuts[1..])
  }

  /** The pieces and the dropped characters put back together. */
  function Interleave(pieces: seq<string>, seps: string): string
    requires |pieces| == |seps| + 1
  {
    if seps == [] then pieces[0] else pieces[0] + [seps[0]] + Interleave(pieces[1..], seps[1..])
  }

  /** The characters at the cut positions. */
  function CutChars(t: string, cuts: seq<nat>): (r: string)
    requires forall i :: 0 <= i < |cuts| ==> cuts[i] < |t|
    ensures |r| == |cuts| && forall i :: 0 <= i < |cuts| ==> r[i] == t[cuts[i]]
  {
    seq(|cuts|, i requires 0 <= i < |cuts| => t[cuts[i]])
  }

  /** The scan cuts exactly at the positions where the pattern matches. */
  lemma {:induction false} SplitFromIsPieces(t: string, start: nat, k: nat)
    requires start <= k <= |t|
    ensures ValidCuts(t, start, Cuts(t, k)) && SplitFrom(t, start, k) == Pieces(t, start, Cuts(t, k))
    decreases |t| - k
  {
    CutsExact(t, k);
    if k < |t| {
      var c := Cuts(t, k + 1);
      if SplitAt(t, k) {
        SplitFromIsPieces(t, k + 1, k + 1);
        assert Cuts(t, k) == [k] + c;
        assert ([k] + c)[1..] == c;
      } else {
        SplitFromIsPieces(t, start, k + 1);
        assert Cuts(t, k) == c;
      }
    }
  }

  /** Putting the dropped characters back between the pieces gives the text back. */
  lemma {:induction false} PiecesRejoin(t: string, start: nat, cuts: seq<nat>)
    requires start <= |t| && ValidCuts(t, start, cuts)
    ensures Interleave(Pieces(t, start, cuts), CutChars(t, cuts)) == t[start..]
    decreases |cuts|
  {
    if cuts != [] {
      PiecesRejoin(t, cuts[0] + 1, cuts[1..]);
      assert CutChars(t, cuts)[1..] == CutChars(t, cuts[1..]);
      assert t[start..] == t[start..cuts[0]] + [t[cuts[0]]] + t[cuts[0] + 1..];
    }
  }

  /** `re.split` with the sentence pattern: the text is its sentences joined
      by the dropped characters, and those are exactly the whitespace
      characters at which the pattern matches. */
  lemma SentencesRejoin(t: string)
    ensures ValidCuts(t, 0, Cuts(t, 0))
    ensures |Sentences(t)| == |Cuts(t, 0)| + 1
    ensures Interleave(Sentences(t), CutChars(t, Cuts(t, 0))) == t
    ensures forall i :: 0 <= i < |Cuts(t, 0)| ==> IsSpace(CutChars(t, Cuts(t, 0))[i])
  {
    SplitFromIsPieces(t, 0, 0);
    CutsExact(t, 0);
    var cuts := Cuts(t, 0);
    forall i | 0 <= i < |cuts| ensures IsSpace(CutChars(t, cuts)[i]) {
      assert cuts[i] in cuts;
    }
    PiecesRejoin(t, 0, Cuts(t, 0));
  }

  /** An abbreviation such as "e.g." is not a sentence end. */
  lemma AbbreviationExample()
    ensures Sentences("e.g. x") == ["e.g. x"]
  {
    var t := "e.g. x";
    assert !SplitAt(t, 4);
    assert SplitFrom(t, 0, 5) == [t];
  }

  /** A title such as "Mr." is not a sentence end. */
  lemma TitleExample()
    ensures Sentences("Mr. X") == ["Mr. X"]
  {
    var t := "Mr. X";
    assert !SplitAt(t, 3);
    assert SplitFrom(t, 0, 4) == [t];
  }

  /** A terminator followed by a space ends a sentence, and the space is dropped. */
  lemma SentenceEndExample()
    ensures Sentences("Yes! No") == ["Yes!", "No"]
  {
    var t := "Yes! No";
    assert SplitAt(t, 4);
    assert t[0..4] == "Yes!" && t[5..] == "No";
    assert SplitFrom(t, 5, 5) == ["No"];
    assert SplitFrom(t, 0, 4) == ["Yes!"] + ["No"];
  }

  /** The title rule also keeps a capitalised two-letter word with its full
      stop from ending a sentence. */
  lemma TwoLetterWordExample()
    ensures Sentences("Go. Now") == ["Go. Now"]
  {
    var t := "Go. Now";
    assert !SplitAt(t, 3);
    assert SplitFrom(t, 0, 4) == [t];
  }

  /** `[s for s in xs if s.strip()]`. */
  function NonBlank(xs: seq<string>): (r: seq<string>)
    ensures |r| <= |xs|
    ensures forall i :: 0 <= i < |r| ==> Strip(r[i]) != [] && r[i] in xs
  {
    if xs == [] then []
    else NonBlank(xs[..|xs| - 1]) + (if Strip(xs[|xs| - 1]) != [] then [xs[|xs| - 1]] else [])
  }

  /** Exactly the members that are not blank are kept. */
  lemma {:induction false} NonBlankMembers(xs: seq<string>)
    ensures forall x :: x in NonBlank(xs) <==> x in xs && !AllSpace(x)
  {
    if xs != [] {
      NonBlankMembers(xs[..|xs| - 1]);
      assert xs == xs[..|xs| - 1] + [xs[|xs| - 1]];
      forall x ensures Strip(x) != [] <==> !AllSpace(x) {
        StripEmptyIff(x);
      }
    }
  }

  /** One block item: the block stripped and, when it then spans several
      lines, its first line (the language tag) dropped and the rest stripped. */
  function CleanBlock(block: string): string {
    var c := Strip(block);
    if '\n' in c then Strip(c[|Before(c, '\n')| + 1..]) else c
  }

  /** A block on one line is kept whole, stripped. */
  lemma SingleLineBlock(block: string)
    requires '\n' !in block
    ensures CleanBlock(block) == Strip(block)
  {
    var i, j := StripSpec(block);
    assert forall k :: 0 <= k < j - i ==> Strip(block)[k] == block[i + k];
  }

  /** A block whose first line is a tag loses that line: what is left is the
      stripped code after it. An untagged block loses its first code line the
      same way. */
  lemma MultiLineBlock(lead: string, lang: string, code: string)
    requires AllSpace(lead) && lang != [] && !IsSpace(lang[0]) && '\n' !in lang
    requires !AllSpace(code)
    ensures CleanBlock(lead + lang + "\n" + code) == Strip(code)
  {
    assert lead + lang + "\n" + code == lead + (lang + "\n") + code;
    var j := StripAfterLead(lead, lang + "\n", code);
    var c := lang + "\n" + code[..j];
    assert c[|lang|] == '\n';
    assert c == lang + ("\n" + code[..j]);
    BeforeStopsAt(lang, "\n" + code[..j], '\n');
    assert c[|lang| + 1..] == code[..j];
  }

  /** Stripping text that starts, after blanks, with a non-blank head keeps
      the head and what the code keeps up to its last non-blank character. */
  lemma StripAfterLead(lead: string, head: string, code: string) returns (j: nat)
    requires AllSpace(lead) && head != [] && !IsSpace(head[0]) && !AllSpace(code)
    ensures j <= |code| && Strip(lead + head + code) == head + code[..j]
    ensures Strip(code[..j]) == Strip(code)
  {
    var s := lead + head + code;
    var off := |lead| + |head|;
    var ic, jc := StripSpec(code);
    StripEmptyIff(code);
    StripTrimmed(code);
    assert code[ic] == Strip(code)[0] && code[jc - 1] == Strip(code)[|Strip(code)| - 1];
    assert s[off..] == code && s[|lead|] == head[0] && s[|lead|..off] == head;
    StripWithin(s, |lead|, off, jc, code);
    j := jc;
    StripUnique(code[..jc], ic, jc);
    assert code[..jc][ic..jc] == code[ic..jc];
  }

  /** The stripped text runs from the head to the last non-blank code character. */
  lemma StripWithin(s: string, i: nat, off: nat, jc: nat, code: string)
    requires i < off <= |s| && s[off..] == code && 0 < jc <= |code| && !IsSpace(code[jc - 1])
    requires !IsSpace(s[i]) && forall k :: 0 <= k < i ==> IsSpace(s[k])
    requires forall k :: jc <= k < |code| ==> IsSpace(code[k])
    ensures Strip(s) == s[i..off] + code[..jc]
  {
    assert s[off + jc - 1] == code[jc - 1];
    forall k | off + jc <= k < |s| ensures IsSpace(s[k]) {
      assert s[k] == code[k - off];
    }
    StripUnique(s, i, off + jc);
    assert s[i..off + jc] == s[i..off] + s[off..off + jc];
  }

  /** The block items, one per block, in order. */
  function CleanAll(blocks: seq<string>): (r: seq<string>)
    ensures |r| == |blocks| && forall i :: 0 <= i < |blocks| ==> r[i] == CleanBlock(blocks[i])
  {
    seq(|blocks|, i requires 0 <= i < |blocks| => CleanBlock(blocks[i]))
  }

  /** The prose that is split into sentences: the gaps, joined, with the
      heading lines removed, stripped. */
  function Prose(input: string): string {
    Strip(DropHeadings(Concat(Scan(input).gaps)))
  }

  /** What `split_string` returns: the block items, then the non-blank sentences. */
  function SplitStringSpec(input: string): seq<string> {
    CleanAll(Scan(input).blocks) + NonBlank(Sentences(Prose(input)))
  }

  /** The loop body that turns one block into its item. */
  method CleanBlockItem(block: string) returns (item: string)
    ensures item == CleanBlock(block)
  {
    var cleanBlock := Strip(block);
    if '\n' in cleanBlock {
      var lang := Before(cleanBlock, '\n');
      item := Strip(cleanBlock[|lang| + 1..]);
    } else {
      item := cleanBlock;
    }
  }

  /** `split_string` as written in the two copies that return strings. */
  method SplitString(input: string) returns (result: seq<string>)
    ensures result == SplitStringSpec(input)
  {
    var segments := Scan(input);
    var codeBlocks := segments.blocks;
    var remainingText := Concat(segments.gaps);
    remainingText := DropHeadings(remainingText);
    var sentences := Sentences(Strip(remainingText));
    result := [];
    for k := 0 to |codeBlocks|
      invariant |result| == k
      invariant forall i :: 0 <= i < k ==> result[i] == CleanBlock(codeBlocks[i])
    {
      var item := CleanBlockItem(codeBlocks[k]);
      result := result + [item];
    }
    assert result == CleanAll(codeBlocks);
    result := result + NonBlank(sentences);
  }

  /** The output is the block items in block order, then the sentences of the
      prose that are not blank, in order. */
  lemma SplitStringShape(input: string)
    ensures |SplitStringSpec(input)| >= |Scan(input).blocks|
    ensures forall i :: 0 <= i < |Scan(input).blocks| ==>
      SplitStringSpec(input)[i] == CleanBlock(Scan(input).blocks[i])
    ensures forall i :: |Scan(input).blocks| <= i < |SplitStringSpec(input)| ==>
      !AllSpace(SplitStringSpec(input)[i]) && SplitStringSpec(input)[i] in Sentences(Prose(input))
  {
    var n := |Scan(input).blocks|;
    var kept := NonBlank(Sentences(Prose(input)));
    forall i | n <= i < |SplitStringSpec(input)|
      ensures !AllSpace(SplitStringSpec(input)[i]) && SplitStringSpec(input)[i] in Sentences(Prose(input))
    {
      assert SplitStringSpec(input)[i] == kept[i - n];
      StripEmptyIff(kept[i - n]);
    }
  }

  /** Two adjacent fences with nothing between them give one empty block item. */
  lemma EmptyBlockExample()
    ensures SplitStringSpec("``````") == [""]
  {
    EmptyBlockScan();
    assert Concat(["", ""]) == "";
    assert DropHeadings("") == "";
    assert Sentences("") == [""];
    assert NonBlank([""]) == [];
    assert CleanBlock("") == "";
  }

  /** Two adjacent fences form one pair around nothing. */
  lemma EmptyBlockScan()
    ensures Scan("``````") == Segments([""], ["", ""])
  {
    var s := "``````";
    assert s[0..3] == Fence && s[3..6] == Fence;
    assert Find(s, Fence, 0) == Some(0) && Find(s, Fence, 3) == Some(3);
    assert NextPair(s) == Some((0, 3));
    assert s[6..] == "" && s[..0] == "" && s[3..3] == "";
    assert NextPair("") == None;
    assert Scan("") == Segments([], [""]);
  }

  /** Every item wrapped in a one-element list. */
  function Wrap(xs: seq<string>): (r: seq<seq<string>>)
    ensures |r| == |xs| && forall i :: 0 <= i < |xs| ==> r[i] == [xs[i]]
  {
    seq(|xs|, i requires 0 <= i < |xs| => [xs[i]])
  }

  /** The concatenation of a list of lists. */
  function Flatten(xss: seq<seq<string>>): seq<string> {
    if xss == [] then [] else Flatten(xss[..|xss| - 1]) + xss[|xss| - 1]
  }

  /** Unwrapping one-element lists gives the items back. */
  lemma {:induction false} FlattenWrap(xs: seq<string>)
    ensures Flatten(Wrap(xs)) == xs
  {
    if xs != [] {
      FlattenWrap(xs[..|xs| - 1]);
      assert Wrap(xs)[..|xs| - 1] == Wrap(xs[..|xs| - 1]);
    }
  }

  /** Wrapping distributes over concatenation. */
  lemma WrapConcat(a: seq<string>, b: seq<string>)
    ensures Wrap(a + b) == Wrap(a) + Wrap(b)
  {
  }

  /** `split_string` as written in the copy that wraps every item in a list. */
  method SplitStringNested(input: string) returns (result: seq<seq<string>>)
    ensures result == Wrap(SplitStringSpec(input))
  {
    var segments := Scan(input);
    var codeBlocks := segments.blocks;
    var remainingText := Concat(segments.gaps);
    remainingText := DropHeadings(remainingText);
    var sentences := Sentences(Strip(remainingText));
    result := [];
    for k := 0 to |codeBlocks|
      invariant |result| == k
      invariant forall i :: 0 <= i < k ==> result[i] == [CleanBlock(codeBlocks[i])]
    {
      var item := CleanBlockItem(codeBlocks[k]);
      result := result + [[item]];
    }
    assert result == Wrap(CleanAll(codeBlocks));
    WrapConcat(CleanAll(codeBlocks), NonBlank(sentences));
    result := result + Wrap(NonBlank(sentences));
  }
}
