/** Laws of splitting at live separators: parts are stable, and two splits make one. */
module SplitLaws {
  import opened Text
  import opened QuoteScan

  /** Separators other than whitespace, so that stripping cannot lose one. */
  ghost predicate NoSpaces(seps: set<char>) {
    forall c :: c in seps ==> !IsSpace(c)
  }

  // ---------- a part contains no cut ----------

  /** Reading `text` from `st` meets no live separator. */
  predicate NoCuts(text: string, seps: set<char>, st: State) {
    text == "" || (!IsCut(st, text[0], seps) && NoCuts(text[1..], seps, Step(st, text[0])))
  }

  lemma ScanOne(c: char, rest: string, seps: set<char>, st: State)
    ensures After([c] + rest, st) == After(rest, Step(st, c))
    ensures NoCuts([c] + rest, seps, st) <==> !IsCut(st, c, seps) && NoCuts(rest, seps, Step(st, c))
  {
    assert ([c] + rest)[1..] == rest;
  }

  lemma {:induction false} NoCutsOneSegment(text: string, seps: set<char>, st: State)
    ensures NoCuts(text, seps, st) <==> Segments(text, seps, st) == [text]
  {
    if text != "" {
      var st' := Step(st, text[0]);
      NoCutsOneSegment(text[1..], seps, st');
      assert text == [text[0]] + text[1..];
      if !IsCut(st, text[0], seps) {
        var r := Segments(text[1..], seps, st');
        assert Segments(text, seps, st)[0] == [text[0]] + r[0];
        assert [text[0]] + r[0] == text ==> r[0] == text[1..];
        assert Segments(text, seps, st)[1..] == r[1..];
        if Segments(text, seps, st) == [text] {
          assert |r| == 1 && r == [r[0]];
        }
      } else {
        assert |Segments(text, seps, st)| >= 2;
      }
    }
  }

  lemma {:induction false} NoCutsAppend(a: string, b: string, seps: set<char>, st: State)
    ensures NoCuts(a + b, seps, st) <==> NoCuts(a, seps, st) && NoCuts(b, seps, After(a, st))
  {
    if a == "" {
      assert a + b == b;
    } else {
      assert (a + b)[1..] == a[1..] + b;
      NoCutsAppend(a[1..], b, seps, Step(st, a[0]));
    }
  }

  lemma {:induction false} SegmentsOfOneCut(a: string, c: char, b: string, seps: set<char>, st: State)
    requires NoCuts(a, seps, st) && IsCut(After(a, st), c, seps) && NoCuts(b, seps, START)
    ensures Segments(a + [c] + b, seps, st) == [a, b]
  {
    var text := a + [c] + b;
    if a == "" {
      assert text[1..] == b;
      NoCutsOneSegment(b, seps, START);
    } else {
      assert text[1..] == a[1..] + [c] + b;
      SegmentsOfOneCut(a[1..], c, b, seps, Step(st, a[0]));
      assert a == [a[0]] + a[1..] && [a[1..], b][1..] == [b];
    }
  }

  lemma {:induction false} SegmentsHaveNoCuts(text: string, seps: set<char>, st: State)
    ensures NoCuts(Segments(text, seps, st)[0], seps, st)
    ensures forall k :: 1 <= k < |Segments(text, seps, st)| ==> NoCuts(Segments(text, seps, st)[k], seps, START)
  {
    if text != "" {
      var r := Segments(text, seps, st);
      if IsCut(st, text[0], seps) {
        SegmentsHaveNoCuts(text[1..], seps, START);
        assert forall k :: 1 <= k < |r| ==> r[k] == Segments(text[1..], seps, START)[k - 1];
      } else {
        var r' := Segments(text[1..], seps, Step(st, text[0]));
        SegmentsHaveNoCuts(text[1..], seps, Step(st, text[0]));
        assert r[0] == [text[0]] + r'[0] && r[0][1..] == r'[0];
        assert forall k :: 1 <= k < |r| ==> r[k] == r'[k];
      }
    }
  }

  lemma {:induction false} StripKeepsNoCuts(s: string, seps: set<char>)
    requires NoCuts(s, seps, START)
    ensures NoCuts(Strip(s), seps, START)
  {
    LStripKeepsNoCuts(s, seps);
    var l := LStrip(s);
    RStripEnds(l);
    assert l == RStrip(l) + l[|RStrip(l)|..];
    NoCutsAppend(RStrip(l), l[|RStrip(l)|..], seps, START);
  }

  lemma {:induction false} LStripKeepsNoCuts(s: string, seps: set<char>)
    requires NoCuts(s, seps, START)
    ensures NoCuts(LStrip(s), seps, START)
  {
    if s != "" && IsSpace(s[0]) {
      assert Step(START, s[0]) == START;
      LStripKeepsNoCuts(s[1..], seps);
    }
  }

  /** A segment is not longer than the text, and shorter when there is a cut. */
  lemma {:induction false} SegmentsAreShort(text: string, seps: set<char>, st: State, k: nat)
    requires k < |Segments(text, seps, st)|
    ensures |Segments(text, seps, st)[k]| <= |text|
    ensures |Segments(text, seps, st)| > 1 ==> |Segments(text, seps, st)[k]| < |text|
  {
    if text != "" {
      if !IsCut(st, text[0], seps) {
        SegmentsAreShort(text[1..], seps, Step(st, text[0]), k);
      } else if k > 0 {
        SegmentsAreShort(text[1..], seps, START, k - 1);
      }
    }
  }

  lemma {:induction false} PartsAreStripped(segments: seq<string>, p: string)
    requires p in Parts(segments)
    ensures p != "" && exists k :: 0 <= k < |segments| && p == Strip(segments[k])
  {
    if Strip(segments[0]) == "" || p != Strip(segments[0]) {
      PartsAreStripped(segments[1..], p);
      var k :| 0 <= k < |segments[1..]| && p == Strip(segments[1..][k]);
      assert segments[k + 1] == segments[1..][k];
    }
  }

  /** A returned part is stripped and has no live separator. */
  lemma PartHasNoCuts(text: string, seps: set<char>, p: string)
    requires p in SplitParts(text, seps)
    ensures p != "" && !IsSpace(p[0]) && !IsSpace(p[|p| - 1]) && NoCuts(p, seps, START)
  {
    var segments := Segments(text, seps, START);
    PartsAreStripped(segments, p);
    var k :| 0 <= k < |segments| && p == Strip(segments[k]);
    SegmentsHaveNoCuts(text, seps, START);
    StripKeepsNoCuts(segments[k], seps);
    StripEnds(segments[k]);
  }

  /** What a splitter returned, it returns unchanged when asked again. */
  lemma PartsSplitToThemselves(text: string, seps: set<char>, p: string)
    requires p in SplitParts(text, seps)
    ensures SplitParts(p, seps) == [p]
  {
    PartHasNoCuts(text, seps, p);
    WholeTextIsOnePart(p, seps);
  }

  lemma {:induction false} PartsAtMost(segments: seq<string>)
    ensures |Parts(segments)| <= |segments|
  {
    if segments != [] {
      PartsAtMost(segments[1..]);
    }
  }

  /** When there are several parts, each is shorter than the text. */
  lemma PartsAreShort(text: string, seps: set<char>, p: string)
    requires p in SplitParts(text, seps) && |SplitParts(text, seps)| > 1
    ensures |p| < |text|
  {
    var segments := Segments(text, seps, START);
    PartsAtMost(segments);
    PartsAreStripped(segments, p);
    var k :| 0 <= k < |segments| && p == Strip(segments[k]);
    SegmentsAreShort(text, seps, START, k);
    StripShortens(segments[k]);
  }

  lemma WholeTextIsOnePart(p: string, seps: set<char>)
    requires p != "" && !IsSpace(p[0]) && !IsSpace(p[|p| - 1])
    requires NoCuts(p, seps, START)
    ensures SplitParts(p, seps) == [p]
  {
    NoCutsOneSegment(p, seps, START);
    StripStripped(p);
    assert Parts([p]) == [p] + Parts([p][1..]);
  }

  /** A stripped text is its own only part exactly when it has no live separator. */
  lemma OnePartIffNoCuts(p: string, seps: set<char>)
    requires p != "" && !IsSpace(p[0]) && !IsSpace(p[|p| - 1])
    ensures SplitParts(p, seps) == [p] <==> NoCuts(p, seps, START)
  {
    var segments := Segments(p, seps, START);
    NoCutsOneSegment(p, seps, START);
    if NoCuts(p, seps, START) {
      WholeTextIsOnePart(p, seps);
    }
    if SplitParts(p, seps) == [p] {
      assert p in SplitParts(p, seps);
      PartsAreStripped(segments, p);
      var k :| 0 <= k < |segments| && p == Strip(segments[k]);
      SegmentsAreShort(p, seps, START, k);
      StripShortens(segments[k]);
      OneSegmentIsText(p, seps, START);
    }
  }

  lemma OneSegmentIsText(text: string, seps: set<char>, st: State)
    ensures |Segments(text, seps, st)| == 1 ==> Segments(text, seps, st) == [text]
  {
    SegmentsRebuild(text, seps, st);
  }

  // ---------- splitting twice ----------

  function SplitEach(parts: seq<string>, seps: set<char>): seq<string> {
    if parts == [] then [] else SplitParts(parts[0], seps) + SplitEach(parts[1..], seps)
  }

  /** Each segment cut again; only the first one continues from `st`. */
  function SegmentsEach(segments: seq<string>, seps: set<char>, st: State): seq<string> {
    if segments == [] then []
    else Segments(segments[0], seps, st) + SegmentsEach(segments[1..], seps, START)
  }

  lemma {:induction false} SegmentsOfUnion(text: string, a: set<char>, b: set<char>, st: State)
    ensures Segments(text, a + b, st) == SegmentsEach(Segments(text, a, st), b, st)
  {
    var segs := Segments(text, a, st);
    if text == "" {
      assert Segments("", b, st) == [""] && SegmentsEach([""][1..], b, START) == [];
    } else {
      var c, rest := text[0], text[1..];
      if IsCut(st, c, a) {
        SegmentsOfUnion(rest, a, b, START);
        assert segs[1..] == Segments(rest, a, START);
        assert Segments(segs[0], b, st) == [""];
      } else {
        SegmentsOfUnion(rest, a, b, Step(st, c));
        EachExtend(c, Segments(rest, a, Step(st, c)), b, st);
      }
    }
  }

  lemma EachExtend(c: char, segments: seq<string>, seps: set<char>, st: State)
    requires segments != []
    ensures SegmentsEach(Extend([c], segments), seps, st)
         == if IsCut(st, c, seps) then [""] + SegmentsEach(segments, seps, START)
            else Extend([c], SegmentsEach(segments, seps, Step(st, c)))
  {
    var first := [c] + segments[0];
    assert first[1..] == segments[0];
    assert Extend([c], segments)[1..] == segments[1..];
  }

  lemma {:induction false} PartsConcat(a: seq<string>, b: seq<string>)
    ensures Parts(a + b) == Parts(a) + Parts(b)
  {
    if a == [] {
      assert a + b == b;
    } else {
      assert (a + b)[1..] == a[1..] + b;
      PartsConcat(a[1..], b);
    }
  }

  /** Leading and trailing whitespace makes no difference to the parts. */
  lemma {:induction false} SplitIgnoresLStrip(s: string, seps: set<char>)
    requires NoSpaces(seps)
    ensures SplitParts(LStrip(s), seps) == SplitParts(s, seps)
  {
    if s != "" && IsSpace(s[0]) {
      SplitIgnoresLStrip(s[1..], seps);
      assert Step(START, s[0]) == START && !IsCut(START, s[0], seps);
      var r := Segments(s[1..], seps, START);
      assert ([s[0]] + r[0])[1..] == r[0];
      assert Strip([s[0]] + r[0]) == Strip(r[0]);
      assert Segments(s, seps, START)[1..] == r[1..];
    }
  }

  lemma {:induction false} SplitIgnoresTrailingSpace(s: string, c: char, seps: set<char>, st: State)
    requires NoSpaces(seps) && IsSpace(c)
    ensures Parts(Segments(s + [c], seps, st)) == Parts(Segments(s, seps, st))
    ensures Strip(Segments(s + [c], seps, st)[0]) == Strip(Segments(s, seps, st)[0])
    ensures Parts(Segments(s + [c], seps, st)[1..]) == Parts(Segments(s, seps, st)[1..])
  {
    if s == "" {
      assert s + [c] == [c] && [c][1..] == "";
      assert !IsCut(st, c, seps) && [c] + "" == [c];
      assert Segments([c], seps, st) == Extend([c], [""]) == [[c]];
      StripIgnoresTrailingSpace("", c);
      assert "" + [c] == [c];
    } else {
      assert (s + [c])[1..] == s[1..] + [c];
      var x := s[0];
      assert (s + [c])[0] == x;
      if IsCut(st, x, seps) {
        SplitIgnoresTrailingSpace(s[1..], c, seps, START);
        assert Segments(s, seps, st)[1..] == Segments(s[1..], seps, START);
        assert Segments(s + [c], seps, st)[1..] == Segments(s[1..] + [c], seps, START);
      } else {
        var r, r' := Segments(s[1..], seps, Step(st, x)), Segments(s[1..] + [c], seps, Step(st, x));
        SplitIgnoresTrailingSpace(s[1..], c, seps, Step(st, x));
        TrailingSpaceInFirstSegment(s[1..], c, seps, Step(st, x));
        assert Segments(s, seps, st)[1..] == r[1..] && Segments(s + [c], seps, st)[1..] == r'[1..];
        if r'[0] == r[0] + [c] {
          assert [x] + r'[0] == [x] + r[0] + [c];
          StripIgnoresTrailingSpace([x] + r[0], c);
        }
      }
    }
  }

  lemma {:induction false} TrailingSpaceInFirstSegment(s: string, c: char, seps: set<char>, st: State)
    requires NoSpaces(seps) && IsSpace(c)
    ensures var r, r' := Segments(s, seps, st), Segments(s + [c], seps, st);
      r'[0] == r[0] || r'[0] == r[0] + [c]
  {
    if s == "" {
      assert s + [c] == [c] && [c][1..] == "";
    } else {
      assert (s + [c])[1..] == s[1..] + [c];
      if !IsCut(st, s[0], seps) {
        TrailingSpaceInFirstSegment(s[1..], c, seps, Step(st, s[0]));
        var r := Segments(s[1..], seps, Step(st, s[0]));
        assert [s[0]] + (r[0] + [c]) == [s[0]] + r[0] + [c];
      }
    }
  }

  lemma {:induction false} SplitIgnoresRStrip(s: string, seps: set<char>)
    requires NoSpaces(seps)
    ensures SplitParts(RStrip(s), seps) == SplitParts(s, seps)
  {
    if s != "" && IsSpace(s[|s| - 1]) {
      var p := s[..|s| - 1];
      SplitIgnoresRStrip(p, seps);
      assert s == p + [s[|s| - 1]];
      SplitIgnoresTrailingSpace(p, s[|s| - 1], seps, START);
    }
  }

  lemma {:induction false} SplitEachSegment(segments: seq<string>, seps: set<char>)
    requires NoSpaces(seps)
    ensures SplitEach(Parts(segments), seps) == Parts(SegmentsEach(segments, seps, START))
  {
    if segments != [] {
      var s, rest := segments[0], segments[1..];
      SplitEachSegment(rest, seps);
      PartsConcat(Segments(s, seps, START), SegmentsEach(rest, seps, START));
      SplitIgnoresRStrip(LStrip(s), seps);
      SplitIgnoresLStrip(s, seps);
      if Strip(s) == "" {
        assert SplitParts("", seps) == Parts([""]) == [];
      } else {
        assert Parts(segments)[1..] == Parts(rest);
      }
    }
  }

  /** Splitting at `a` and then each part at `b` is one scan that cuts at both. */
  lemma SplitTwiceIsSplitOnce(text: string, a: set<char>, b: set<char>)
    requires NoSpaces(b)
    ensures SplitEach(SplitParts(text, a), b) == SplitParts(text, a + b)
  {
    SegmentsOfUnion(text, a, b, START);
    SplitEachSegment(Segments(text, a, START), b);
  }
}
