/**
 * The two shinglers of shingles.go: stop-word shingles (a stop word and the two words after
 * it) and fixed-length character shingles. Both keep a list of open windows that they edit
 * in place and a `seen` set that keeps each shingle once.
 */
module Shingles {
  import opened Common
  import opened Windows

  /** The punctuation class `[.,:;?!]` of shingles.go. */
  predicate IsPunctuationMark(c: char)
  {
    c == '.' || c == ',' || c == ':' || c == ';' || c == '?' || c == '!'
  }

  /** Every run of punctuation characters replaced by nothing. */
  function RemovePunctuationMarks(s: string): string
  {
    if s == [] then []
    else
      var n := |s| - 1;
      RemovePunctuationMarks(s[..n]) + (if IsPunctuationMark(s[n]) then [] else [s[n]])
  }

  /**
   * Removing punctuation leaves no punctuation mark and keeps every other character as often
   * as it occurs.
   */
  lemma {:induction false} RemovePunctuationMarksProperties(s: string)
    ensures forall i :: 0 <= i < |RemovePunctuationMarks(s)| ==> !IsPunctuationMark(RemovePunctuationMarks(s)[i])
    ensures forall c :: !IsPunctuationMark(c) ==> multiset(RemovePunctuationMarks(s))[c] == multiset(s)[c]
    ensures |RemovePunctuationMarks(s)| <= |s|
  {
    if s != [] {
      var n := |s| - 1;
      RemovePunctuationMarksProperties(s[..n]);
      assert s == s[..n] + [s[n]];
    }
  }

  /** White space as Go's `unicode.IsSpace` defines it, which `strings.Fields` splits on. */
  predicate IsSpace(c: char)
  {
    || c == ' '
    || ('\t' <= c <= '\r')
    || c == '\U{0085}' || c == '\U{00A0}' || c == '\U{1680}'
    || ('\U{2000}' <= c <= '\U{200A}')
    || c == '\U{2028}' || c == '\U{2029}' || c == '\U{202F}' || c == '\U{205F}' || c == '\U{3000}'
  }

  predicate NoSpace(s: string)
  {
    forall i :: 0 <= i < |s| ==> !IsSpace(s[i])
  }

  /** The fields of `s` after the partial field `cur`: maximal runs of non-space characters. */
  function FieldsFrom(s: string, cur: string): seq<string>
    decreases |s|
  {
    if s == [] then (if cur == [] then [] else [cur])
    else if IsSpace(s[0]) then (if cur == [] then [] else [cur]) + FieldsFrom(s[1..], [])
    else FieldsFrom(s[1..], cur + [s[0]])
  }

  /** Every field is non-empty and holds no white space. */
  lemma {:induction false} FieldsFromShape(s: string, cur: string)
    requires NoSpace(cur)
    ensures forall i :: 0 <= i < |FieldsFrom(s, cur)| ==> FieldsFrom(s, cur)[i] != [] && NoSpace(FieldsFrom(s, cur)[i])
    decreases |s|
  {
    if s != [] {
      if IsSpace(s[0]) {
        FieldsFromShape(s[1..], []);
      } else {
        FieldsFromShape(s[1..], cur + [s[0]]);
      }
    }
  }

  /** `strings.Fields`: the non-empty runs of non-space characters of `s`, in order. */
  function Fields(s: string): seq<string>
  {
    FieldsFrom(s, [])
  }

  /** `strings.Join(ws, " ")`. */
  function JoinWords(ws: seq<string>): string
  {
    if |ws| == 0 then ""
    else if |ws| == 1 then ws[0]
    else ws[0] + " " + JoinWords(ws[1..])
  }

  /** Every window of words joined into its shingle text. */
  function JoinAll(windows: seq<seq<string>>): seq<string>
  {
    if windows == [] then []
    else JoinAll(windows[..|windows| - 1]) + [JoinWords(windows[|windows| - 1])]
  }

  lemma JoinAllSnoc(a: seq<seq<string>>, w: seq<string>)
    ensures JoinAll(a + [w]) == JoinAll(a) + [JoinWords(w)]
  {
    assert (a + [w])[..|a|] == a;
  }

  lemma {:induction false} JoinAllAppend(a: seq<seq<string>>, b: seq<seq<string>>)
    ensures JoinAll(a + b) == JoinAll(a) + JoinAll(b)
    decreases |b|
  {
    if b == [] {
      assert a + b == a;
    } else {
      var n := |b| - 1;
      assert a + b == (a + b[..n]) + [b[n]];
      JoinAllSnoc(a + b[..n], b[n]);
      JoinAllAppend(a, b[..n]);
      JoinAllSnoc(b[..n], b[n]);
      assert b[..n] + [b[n]] == b;
    }
  }

  /** The words of one line as the stop-word shingler sees them: fields with punctuation removed. */
  function StripAll(ws: seq<string>): seq<string>
  {
    if ws == [] then [] else StripAll(ws[..|ws| - 1]) + [RemovePunctuationMarks(ws[|ws| - 1])]
  }

  /** The word stream of all lines, in order. */
  function Words(lines: seq<string>): seq<string>
  {
    if lines == [] then []
    else Words(lines[..|lines| - 1]) + StripAll(Fields(lines[|lines| - 1]))
  }

  /** The character stream of all lines with punctuation skipped; windows run across line ends. */
  function Chars(lines: seq<string>): string
  {
    if lines == [] then []
    else Chars(lines[..|lines| - 1]) + RemovePunctuationMarks(lines[|lines| - 1])
  }

  /**
   * Reference result of Shingle: the runs of three words that start with a stop word, in the
   * order in which they complete, joined by single spaces, each kept once.
   */
  function ShingleSpec(lines: seq<string>, isStop: string -> bool): seq<string>
  {
    Dedup(JoinAll(Finished(Words(lines), isStop, 3)))
  }

  /** Every character opens a window in KShingle. */
  predicate AnyChar(c: char)
  {
    true
  }

  /** Reference result of KShingle: every run of `k` characters of the stream, in order, each kept once. */
  function KShingleSpec(lines: seq<string>, k: int): seq<string>
  {
    Dedup(Finished(Chars(lines), AnyChar, k))
  }

  /** The `shingler` struct: the result so far, the open windows and the shingles already emitted. */
  class Shingler {
    var shingles: seq<string>
    var candidates: seq<seq<string>>
    var seen: set<string>

    ghost predicate Valid()
      reads this
    {
      seen == Elems(shingles) && NoDup(shingles)
    }

    /** The shingler has read the word stream `ws`. */
    ghost predicate HasRead(ws: seq<string>, isStop: string -> bool)
      reads this
    {
      && Valid()
      && candidates == Pending(ws, isStop, 3, 0)
      && shingles == Dedup(JoinAll(Finished(ws, isStop, 3)))
    }

    constructor ()
      ensures Valid()
      ensures shingles == [] && candidates == [] && seen == {}
    {
      shingles := [];
      candidates := [];
      seen := {};
    }

    /** Opens an empty window at the end of the list. */
    method AppendCandidate()
      modifies this
      ensures candidates == old(candidates) + [[]]
      ensures shingles == old(shingles) && seen == old(seen)
    {
      candidates := candidates + [[]];
    }

    /**
     * Appends `word` to every open window; a window that reaches three words is emitted,
     * unless already seen, and deleted from the list.
     */
    method AppendWord(word: string)
      requires Valid()
      modifies this
      ensures Valid()
      ensures candidates == Advance(old(candidates), word, 3)
      ensures shingles == AddUnseen(old(shingles), JoinAll(Completed(old(candidates), word, 3)))
    {
      var candidatesLen := |candidates|;
      if candidatesLen == 0 {
        return;
      }
      ghost var cands := candidates;
      var i := 0;
      ghost var j := 0;
      assert cands[..0] == [];
      while i != candidatesLen
        invariant 0 <= i <= candidatesLen == |candidates|
        invariant 0 <= j <= |cands| && candidatesLen - i == |cands| - j
        invariant candidates[..i] == Advance(cands[..j], word, 3)
        invariant candidates[i..] == cands[j..]
        invariant shingles == AddUnseen(old(shingles), JoinAll(Completed(cands[..j], word, 3)))
        invariant seen == Elems(shingles)
        decreases candidatesLen - i
      {
        ghost var c0 := candidates;
        var w := candidates[i] + [word];
        candidates := candidates[i := w];
        if |candidates[i]| == 3 {
          var candidate := JoinWords(candidates[i]);
          ghost var done := JoinAll(Completed(cands[..j], word, 3));
          assert JoinAll(Completed(cands[..j + 1], word, 3)) == done + [candidate] by {
            DropStep(c0, i, cands, j, word, 3);
            JoinAllSnoc(Completed(cands[..j], word, 3), w);
          }
          EmitStep(old(shingles), done, candidate, seen);
          if candidate !in seen {
            shingles := shingles + [candidate];
            seen := seen + {candidate};
          }
          DropStep(c0, i, cands, j, word, 3);
          candidates := DeleteAt(candidates, i);
          candidatesLen := candidatesLen - 1;
        } else {
          KeepStep(c0, i, cands, j, word, 3);
          i := i + 1;
        }
        j := j + 1;
      }
      assert cands[..j] == cands;
      assert candidates[..i] == candidates;
      AddUnseenNoDup(old(shingles), JoinAll(Completed(cands, word, 3)));
    }
  }

  /** Reading word `w` moves the open windows and the emitted shingles from `ws` to `ws + [w]`. */
  lemma ShingleStep(ws: seq<string>, isStop: string -> bool, w: string)
    ensures var cands := Pending(ws, isStop, 3, 0) + Fresh(w, isStop);
      && Advance(cands, w, 3) == Pending(ws + [w], isStop, 3, 0)
      && AddUnseen(Dedup(JoinAll(Finished(ws, isStop, 3))), JoinAll(Completed(cands, w, 3)))
         == Dedup(JoinAll(Finished(ws + [w], isStop, 3)))
  {
    var cands := Pending(ws, isStop, 3, 0) + Fresh(w, isStop);
    StepFinished(ws, isStop, 3, w);
    JoinAllAppend(Finished(ws, isStop, 3), Completed(cands, w, 3));
    DedupAppend(JoinAll(Finished(ws, isStop, 3)), JoinAll(Completed(cands, w, 3)));
  }

  /** The words of the first `li + 1` lines are those of the first `li` lines and then line `li`'s. */
  lemma WordsStep(lines: seq<string>, li: nat)
    requires li < |lines|
    ensures Words(lines[..li + 1]) == Words(lines[..li]) + StripAll(Fields(lines[li]))
  {
    assert lines[..li + 1][..li] == lines[..li];
  }

  /** Shingle: stop-word shingles of the lines, each once, in order of completion. */
  method Shingle(lines: seq<string>, isStop: string -> bool) returns (r: seq<string>)
    ensures r == ShingleSpec(lines, isStop)
  {
    var sh := new Shingler();
    assert lines[..0] == [];
    for li := 0 to |lines|
      invariant sh.HasRead(Words(lines[..li]), isStop)
    {
      var words := Fields(lines[li]);
      ReadWords(sh, words, isStop, Words(lines[..li]));
      WordsStep(lines, li);
    }
    assert lines[..|lines|] == lines;
    r := sh.shingles;
  }

  /** The inner loop of Shingle: each word of a line, punctuation removed, is given to the shingler. */
  method ReadWords(sh: Shingler, words: seq<string>, isStop: string -> bool, ghost prefix: seq<string>)
    requires sh.HasRead(prefix, isStop)
    modifies sh
    ensures sh.HasRead(prefix + StripAll(words), isStop)
  {
    ghost var ws := prefix;
    assert words[..0] == [];
    assert prefix + StripAll([]) == prefix;
    for wi := 0 to |words|
      invariant ws == prefix + StripAll(words[..wi])
      invariant sh.HasRead(ws, isStop)
    {
      var w := RemovePunctuationMarks(words[wi]);
      ReadWord(sh, w, isStop, ws);
      StripAllStep(words, wi);
      ws := ws + [w];
    }
    assert words[..|words|] == words;
  }

  lemma StripAllStep(words: seq<string>, wi: nat)
    requires wi < |words|
    ensures StripAll(words[..wi + 1]) == StripAll(words[..wi]) + [RemovePunctuationMarks(words[wi])]
  {
    assert words[..wi + 1][..wi] == words[..wi];
  }

  /** One word read: a stop word opens a window, then every window takes the word. */
  method ReadWord(sh: Shingler, w: string, isStop: string -> bool, ghost ws: seq<string>)
    requires sh.HasRead(ws, isStop)
    modifies sh
    ensures sh.HasRead(ws + [w], isStop)
  {
    if isStop(w) {
      sh.AppendCandidate();
    }
    assert sh.candidates == Pending(ws, isStop, 3, 0) + Fresh(w, isStop);
    ShingleStep(ws, isStop, w);
    sh.AppendWord(w);
  }

  /** KShingle: every run of `k` non-punctuation characters, each once, in order of completion. */
  method KShingle(lines: seq<string>, k: int) returns (r: seq<string>)
    ensures r == KShingleSpec(lines, k)
  {
    var shingles: seq<string> := [];
    var candidates: seq<string> := [];
    var seen: set<string> := {};
    assert lines[..0] == [];
    for li := 0 to |lines|
      invariant candidates == Pending(Chars(lines[..li]), AnyChar, k, 0)
      invariant shingles == Dedup(Finished(Chars(lines[..li]), AnyChar, k))
      invariant seen == Elems(shingles)
    {
      var line := lines[li];
      ghost var cs := Chars(lines[..li]);
      assert line[..0] == [];
      for ci := 0 to |line|
        invariant cs == Chars(lines[..li]) + RemovePunctuationMarks(line[..ci])
        invariant candidates == Pending(cs, AnyChar, k, 0)
        invariant shingles == Dedup(Finished(cs, AnyChar, k))
        invariant seen == Elems(shingles)
      {
        var ch := line[ci];
        assert line[..ci + 1][..ci] == line[..ci];
        if IsPunctuationMark(ch) {
          continue;
        }
        candidates := candidates + [[]];
        ghost var cands := candidates;
        candidates, shingles, seen := WriteChar(candidates, shingles, seen, ch, k);
        StepFinished(cs, AnyChar, k, ch);
        DedupAppend(Finished(cs, AnyChar, k), Completed(cands, ch, k));
        cs := cs + [ch];
      }
      assert lines[..li + 1][..li] == lines[..li];
      assert line[..|line|] == line;
    }
    assert lines[..|lines|] == lines;
    r := shingles;
  }

  /**
   * The inner loop of KShingle: `ch` is written to every open window; a window that reaches
   * `k` characters is emitted, unless already seen, and deleted from the list.
   */
  method WriteChar(candidates0: seq<string>, shingles0: seq<string>, seen0: set<string>, ch: char, k: int)
    returns (candidates: seq<string>, shingles: seq<string>, seen: set<string>)
    requires seen0 == Elems(shingles0)
    ensures candidates == Advance(candidates0, ch, k)
    ensures shingles == AddUnseen(shingles0, Completed(candidates0, ch, k))
    ensures seen == Elems(shingles)
  {
    candidates, shingles, seen := candidates0, shingles0, seen0;
    var candidatesLen := |candidates|;
    var i := 0;
    ghost var j := 0;
    assert candidates0[..0] == [];
    while i != candidatesLen
      invariant 0 <= i <= candidatesLen == |candidates|
      invariant 0 <= j <= |candidates0| && candidatesLen - i == |candidates0| - j
      invariant candidates[..i] == Advance(candidates0[..j], ch, k)
      invariant candidates[i..] == candidates0[j..]
      invariant shingles == AddUnseen(shingles0, Completed(candidates0[..j], ch, k))
      invariant seen == Elems(shingles)
      decreases candidatesLen - i
    {
      var sb := candidates[i] + [ch];
      if |sb| == k {
        DropStep(candidates, i, candidates0, j, ch, k);
      } else {
        KeepStep(candidates, i, candidates0, j, ch, k);
      }
      candidates := candidates[i := sb];
      if |sb| == k {
        var candidate := sb;
        EmitStep(shingles0, Completed(candidates0[..j], ch, k), candidate, seen);
        if candidate !in seen {
          shingles := shingles + [candidate];
          seen := seen + {candidate};
        }
        candidates := DeleteAt(candidates, i);
        candidatesLen := candidatesLen - 1;
      } else {
        i := i + 1;
      }
      j := j + 1;
    }
    assert candidates0[..j] == candidates0;
    assert candidates[..i] == candidates;
  }

  // Properties of the two shinglers.

  /** `s` is the shingle of the three words of `ws` starting at `p`, and word `p` is a stop word. */
  predicate ShingleAt(ws: seq<string>, isStop: string -> bool, p: int, s: string)
  {
    0 <= p && p + 3 <= |ws| && isStop(ws[p]) && s == ws[p] + " " + ws[p + 1] + " " + ws[p + 2]
  }

  lemma JoinThree(w: seq<string>)
    requires |w| == 3
    ensures JoinWords(w) == w[0] + " " + w[1] + " " + w[2]
  {
    assert w[1..][1..] == [w[2]];
    assert JoinWords(w[1..]) == w[1] + " " + w[2];
    assert JoinWords(w) == w[0] + " " + (w[1] + " " + w[2]);
  }

  lemma {:induction false} JoinAllMember(windows: seq<seq<string>>, s: string)
    ensures s in JoinAll(windows) <==> exists i :: 0 <= i < |windows| && s == JoinWords(windows[i])
    decreases |windows|
  {
    if windows != [] {
      var n := |windows| - 1;
      JoinAllMember(windows[..n], s);
      if s in JoinAll(windows) && s != JoinWords(windows[n]) {
        var i :| 0 <= i < n && s == JoinWords(windows[..n][i]);
        assert s == JoinWords(windows[i]);
      }
      if exists i :: 0 <= i < |windows| && s == JoinWords(windows[i]) {
        var i :| 0 <= i < |windows| && s == JoinWords(windows[i]);
        if i < n { assert windows[..n][i] == windows[i]; }
      }
    }
  }

  /** Dedup keeps exactly the elements of the sequence it is given. */
  lemma DedupMember<T>(xs: seq<T>, x: T)
    ensures x in Dedup(xs) <==> x in xs
  {
    DedupProperties(xs);
    if x in Dedup(xs) {
      var i :| 0 <= i < |Dedup(xs)| && Dedup(xs)[i] == x;
      assert Dedup(xs)[i] in xs;
    }
    if x in xs {
      var i :| 0 <= i < |xs| && xs[i] == x;
      assert xs[i] in Dedup(xs);
    }
  }

  /**
   * Shingle returns exactly the stop-word shingles of the word stream: a string is in the
   * result if and only if it is a stop word and the two words after it, joined by spaces.
   */
  lemma ShingleMembers(lines: seq<string>, isStop: string -> bool, s: string)
    ensures s in ShingleSpec(lines, isStop) <==> exists p :: ShingleAt(Words(lines), isStop, p, s)
  {
    ShingleSound(lines, isStop, s);
    ShingleComplete(lines, isStop, s);
  }

  lemma ShingleSound(lines: seq<string>, isStop: string -> bool, s: string)
    ensures s in ShingleSpec(lines, isStop) ==> exists p :: ShingleAt(Words(lines), isStop, p, s)
  {
    if s in ShingleSpec(lines, isStop) {
      var p := ShingleFound(lines, isStop, s);
      assert ShingleAt(Words(lines), isStop, p, s);
    }
  }

  lemma ShingleComplete(lines: seq<string>, isStop: string -> bool, s: string)
    ensures (exists p :: ShingleAt(Words(lines), isStop, p, s)) ==> s in ShingleSpec(lines, isStop)
  {
    forall p | ShingleAt(Words(lines), isStop, p, s)
      ensures s in ShingleSpec(lines, isStop)
    {
      ShingleEmitted(lines, isStop, p, s);
    }
  }

  lemma ShingleFound(lines: seq<string>, isStop: string -> bool, s: string) returns (p: int)
    requires s in ShingleSpec(lines, isStop)
    ensures ShingleAt(Words(lines), isStop, p, s)
  {
    var ws := Words(lines);
    var fin := Finished(ws, isStop, 3);
    DedupMember(JoinAll(fin), s);
    JoinAllMember(fin, s);
    var i :| 0 <= i < |fin| && s == JoinWords(fin[i]);
    FinishedMembers(ws, isStop, 3, fin[i]);
    p :| StartsAt(ws, isStop, 3, p, fin[i]);
    JoinThree(fin[i]);
  }

  lemma ShingleEmitted(lines: seq<string>, isStop: string -> bool, p: int, s: string)
    requires ShingleAt(Words(lines), isStop, p, s)
    ensures s in ShingleSpec(lines, isStop)
  {
    var ws := Words(lines);
    var fin := Finished(ws, isStop, 3);
    var w := ws[p..p + 3];
    JoinThree(w);
    assert w[0] == ws[p] && w[1] == ws[p + 1] && w[2] == ws[p + 2];
    StartIsFinished(ws, isStop, 3, p, w);
    var i :| 0 <= i < |fin| && fin[i] == w;
    JoinAllMember(fin, s);
    DedupMember(JoinAll(fin), s);
  }

  /** Shingle never returns the same shingle twice. */
  lemma ShingleDistinct(lines: seq<string>, isStop: string -> bool)
    ensures NoDup(ShingleSpec(lines, isStop))
  {
    DedupProperties(JoinAll(Finished(Words(lines), isStop, 3)));
  }

  /**
   * The order of Shingle's result: each shingle at the place where it first completes in the
   * word stream, later repeats dropped.
   */
  lemma ShingleOrder(lines: seq<string>, isStop: string -> bool)
    ensures ShingleSpec(lines, isStop) == FirstOccurrences(JoinAll(Finished(Words(lines), isStop, 3)))
  {
    DedupIsFirstOccurrences(JoinAll(Finished(Words(lines), isStop, 3)));
  }

  /** The character stream holds no punctuation mark. */
  lemma {:induction false} CharsNoPunctuation(lines: seq<string>)
    ensures forall i :: 0 <= i < |Chars(lines)| ==> !IsPunctuationMark(Chars(lines)[i])
  {
    if lines != [] {
      var n := |lines| - 1;
      CharsNoPunctuation(lines[..n]);
      RemovePunctuationMarksProperties(lines[n]);
    }
  }

  /** `s` is the run of `k` characters of `cs` starting at `p`. */
  predicate RunAt(cs: string, k: int, p: int, s: string)
  {
    1 <= k && 0 <= p && p + k <= |cs| && s == cs[p..p + k]
  }

  /**
   * KShingle returns exactly the runs of `k` consecutive non-punctuation characters: a string
   * is in the result if and only if it is such a run (so nothing when `k` is below 1).
   */
  lemma KShingleMembers(lines: seq<string>, k: int, s: string)
    ensures s in KShingleSpec(lines, k) <==> exists p :: RunAt(Chars(lines), k, p, s)
  {
    KShingleSound(lines, k, s);
    KShingleComplete(lines, k, s);
  }

  lemma KShingleSound(lines: seq<string>, k: int, s: string)
    ensures s in KShingleSpec(lines, k) ==> exists p :: RunAt(Chars(lines), k, p, s)
  {
    var cs := Chars(lines);
    if s in KShingleSpec(lines, k) {
      DedupMember(Finished(cs, AnyChar, k), s);
      var p := FinishedStart(cs, AnyChar, k, s);
      assert RunAt(cs, k, p, s);
    }
  }

  lemma KShingleComplete(lines: seq<string>, k: int, s: string)
    ensures (exists p :: RunAt(Chars(lines), k, p, s)) ==> s in KShingleSpec(lines, k)
  {
    var cs := Chars(lines);
    forall p | RunAt(cs, k, p, s)
      ensures s in KShingleSpec(lines, k)
    {
      StartIsFinished(cs, AnyChar, k, p, s);
      DedupMember(Finished(cs, AnyChar, k), s);
    }
  }

  /** Every k-shingle has exactly `k` characters, none of them a punctuation mark, and none repeats. */
  lemma KShingleShape(lines: seq<string>, k: int)
    ensures forall i :: 0 <= i < |KShingleSpec(lines, k)| ==>
      |KShingleSpec(lines, k)[i]| == k && forall j :: 0 <= j < k ==> !IsPunctuationMark(KShingleSpec(lines, k)[i][j])
    ensures NoDup(KShingleSpec(lines, k))
  {
    var cs := Chars(lines);
    var r := KShingleSpec(lines, k);
    DedupProperties(Finished(cs, AnyChar, k));
    CharsNoPunctuation(lines);
    forall i | 0 <= i < |r|
      ensures |r[i]| == k && forall j :: 0 <= j < k ==> !IsPunctuationMark(r[i][j])
    {
      KShingleMembers(lines, k, r[i]);
      var p :| RunAt(cs, k, p, r[i]);
      forall j | 0 <= j < k ensures !IsPunctuationMark(r[i][j]) {
        assert r[i][j] == cs[p + j];
      }
    }
  }

  /** A stop word always opens a window and the result of Shingle is empty without stop words. */
  lemma ShingleWithoutStopWords(lines: seq<string>, isStop: string -> bool)
    requires forall i :: 0 <= i < |Words(lines)| ==> !isStop(Words(lines)[i])
    ensures ShingleSpec(lines, isStop) == []
  {
    if ShingleSpec(lines, isStop) != [] {
      var s := ShingleSpec(lines, isStop)[0];
      ShingleMembers(lines, isStop, s);
      var p :| ShingleAt(Words(lines), isStop, p, s);
      assert false;
    }
  }

  /** Removing punctuation works character by character, so it distributes over concatenation. */
  lemma {:induction false} RemovePunctuationMarksAppend(a: string, b: string)
    ensures RemovePunctuationMarks(a + b) == RemovePunctuationMarks(a) + RemovePunctuationMarks(b)
    decreases |b|
  {
    if b == [] {
      assert a + b == a;
    } else {
      var n := |b| - 1;
      assert (a + b)[..|a + b| - 1] == a + b[..n];
      RemovePunctuationMarksAppend(a, b[..n]);
      assert b[..n] + [b[n]] == b;
    }
  }

  /** The punctuation class holds the six marks and nothing else among common characters. */
  lemma PunctuationExamples()
    ensures IsPunctuationMark('.') && IsPunctuationMark(',') && IsPunctuationMark(':')
    ensures IsPunctuationMark(';') && IsPunctuationMark('?') && IsPunctuationMark('!')
    ensures !IsPunctuationMark(' ') && !IsPunctuationMark('a') && !IsPunctuationMark('1') && !IsPunctuationMark('#')
    ensures !IsPunctuationMark('-') && !IsPunctuationMark('\'')
  {
  }

  /** A string without punctuation is left as it is. */
  lemma {:induction false} RemovePunctuationMarksKeeps(s: string)
    requires forall i :: 0 <= i < |s| ==> !IsPunctuationMark(s[i])
    ensures RemovePunctuationMarks(s) == s
  {
    if s != [] {
      var n := |s| - 1;
      RemovePunctuationMarksKeeps(s[..n]);
      assert s[..n] + [s[n]] == s;
    }
  }

  /** Removing punctuation twice is removing it once. */
  lemma RemovePunctuationMarksIdempotent(s: string)
    ensures RemovePunctuationMarks(RemovePunctuationMarks(s)) == RemovePunctuationMarks(s)
  {
    RemovePunctuationMarksProperties(s);
    RemovePunctuationMarksKeeps(RemovePunctuationMarks(s));
  }

  /** A string made only of punctuation marks is removed entirely. */
  lemma {:induction false} RemovePunctuationMarksAll(s: string)
    requires forall i :: 0 <= i < |s| ==> IsPunctuationMark(s[i])
    ensures RemovePunctuationMarks(s) == []
  {
    if s != [] {
      RemovePunctuationMarksAll(s[..|s| - 1]);
    }
  }

  /** Punctuation around a string without punctuation is stripped, and the string kept. */
  lemma RemovePunctuationFraming(pre: string, body: string, post: string)
    requires forall i :: 0 <= i < |pre| ==> IsPunctuationMark(pre[i])
    requires forall i :: 0 <= i < |body| ==> !IsPunctuationMark(body[i])
    requires forall i :: 0 <= i < |post| ==> IsPunctuationMark(post[i])
    ensures RemovePunctuationMarks(pre + body + post) == body
  {
    RemovePunctuationMarksAppend(pre + body, post);
    RemovePunctuationMarksAppend(pre, body);
    RemovePunctuationMarksAll(pre);
    RemovePunctuationMarksAll(post);
    RemovePunctuationMarksKeeps(body);
    assert [] + body + [] == body;
  }

  /** The test of shingles_test.go: a comma and an exclamation mark removed from "Hello, world!". */
  lemma RemovePunctuationExample()
    ensures RemovePunctuationMarks("Hello" + "," + " world" + "!") == "Hello world"
  {
    var hello, world := "Hello", " world";
    RemovePunctuationMarksAppend(hello + "," + world, "!");
    RemovePunctuationMarksAppend(hello + ",", world);
    RemovePunctuationMarksAppend(hello, ",");
    RemovePunctuationMarksAll(",");
    RemovePunctuationMarksAll("!");
    RemovePunctuationMarksKeeps(hello);
    RemovePunctuationMarksKeeps(world);
    assert hello + [] + world + [] == "Hello world";
  }

  /** The test of shingles_test.go: a final full stop is removed. */
  lemma RemovePunctuationFullStopExample()
    ensures RemovePunctuationMarks("" + "for people to buy Sudzo products" + ".") == "for people to buy Sudzo products"
  {
    RemovePunctuationFraming("", "for people to buy Sudzo products", ".");
  }

  /** The test of shingles_test.go: a leading ellipsis is removed and the space after it kept. */
  lemma RemovePunctuationSpacedEllipsisExample()
    ensures RemovePunctuationMarks("..." + " for people to buy Sudzo products" + ".") == " for people to buy Sudzo products"
  {
    RemovePunctuationFraming("...", " for people to buy Sudzo products", ".");
  }

  /** The test of shingles_test.go: an ellipsis glued to the first word is removed. */
  lemma RemovePunctuationEllipsisExample()
    ensures RemovePunctuationMarks("..." + "for people to buy Sudzo products" + ".") == "for people to buy Sudzo products"
  {
    RemovePunctuationFraming("...", "for people to buy Sudzo products", ".");
  }
}
