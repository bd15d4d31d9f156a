/**
 The blank marker of cloze text and `text.split(marker)` as JavaScript performs it:
 the text is scanned left to right and cut at each occurrence of the marker that
 does not overlap an earlier one.
 */
module ClozeSplit {

  const Marker: string := "_____"

  /** The marker occurs in `s` starting at position `i`. */
  predicate MarkerAt(s: string, i: int) {
    0 <= i && i + |Marker| <= |s| && s[i..i + |Marker|] == Marker
  }

  predicate HasMarker(s: string) {
    exists i | 0 <= i < |s| :: MarkerAt(s, i)
  }

  /** Number of non-overlapping markers found scanning from the left. */
  function CountMarkers(s: string): (n: nat)
    decreases |s|
  {
    if |s| < |Marker| then 0
    else if s[..|Marker|] == Marker then 1 + CountMarkers(s[|Marker|..])
    else CountMarkers(s[1..])
  }

  /** `s.split("_____")`: the literal segments between the markers. */
  function Split(s: string): (r: seq<string>)
    ensures |r| == CountMarkers(s) + 1
    ensures |r[0]| <= |s| && r[0] == s[..|r[0]|]
    decreases |s|
  {
    if |s| < |Marker| then [s]
    else if s[..|Marker|] == Marker then [""] + Split(s[|Marker|..])
    else
      var t := Split(s[1..]);
      [[s[0]] + t[0]] + t[1..]
  }

  /** `segments.join("_____")`. */
  function Join(segments: seq<string>): (s: string)
    requires |segments| >= 1
  {
    if |segments| == 1 then segments[0] else segments[0] + Marker + Join(segments[1..])
  }

  /** Joining the segments back with the marker restores the text. */
  lemma {:induction false} JoinSplit(s: string)
    ensures Join(Split(s)) == s
    decreases |s|
  {
    if |s| < |Marker| {
    } else if s[..|Marker|] == Marker {
      JoinSplit(s[|Marker|..]);
      assert s == Marker + s[|Marker|..];
    } else {
      var t := Split(s[1..]);
      JoinSplit(s[1..]);
      if |t| == 1 {
        assert s == [s[0]] + s[1..];
      } else {
        assert Join(t) == t[0] + Marker + Join(t[1..]);
        assert s == [s[0]] + s[1..];
      }
    }
  }

  /** No segment contains the marker: every occurrence became a cut. */
  lemma {:induction false} SegmentsMarkerFree(s: string)
    ensures forall k :: 0 <= k < |Split(s)| ==> !HasMarker(Split(s)[k])
    decreases |s|
  {
    if |s| < |Marker| {
      assert forall i :: !MarkerAt(s, i);
    } else if s[..|Marker|] == Marker {
      SegmentsMarkerFree(s[|Marker|..]);
      assert !MarkerAt("", 0);
      assert Split(s) == [""] + Split(s[|Marker|..]);
    } else {
      var t := Split(s[1..]);
      SegmentsMarkerFree(s[1..]);
      var head := [s[0]] + t[0];
      assert head == s[..|head|];
      forall i | MarkerAt(head, i)
        ensures false
      {
        if i > 0 {
          assert head[i..i + |Marker|] == head[1..][i - 1..i - 1 + |Marker|];
          assert head[1..] == t[0];
          assert MarkerAt(t[0], i - 1);
        }
      }
      assert Split(s) == [head] + t[1..];
    }
  }

  /** The first cut is at the leftmost occurrence of the marker and the rest of the text is
      split again after it; with no occurrence the text stays whole. Together these fix
      every segment, so they characterise `Split` completely. */
  lemma {:induction false} SplitFirstCut(s: string)
    ensures forall i :: 0 <= i < |Split(s)[0]| ==> !MarkerAt(s, i)
    ensures |Split(s)| == 1 ==> Split(s)[0] == s
    ensures |Split(s)| > 1 ==> MarkerAt(s, |Split(s)[0]|)
    ensures |Split(s)| > 1 ==> Split(s)[1..] == Split(s[|Split(s)[0]| + |Marker|..])
    decreases |s|
  {
    if |s| < |Marker| {
    } else if s[..|Marker|] == Marker {
      assert Split(s) == [""] + Split(s[|Marker|..]);
    } else {
      var t := Split(s[1..]);
      SplitFirstCut(s[1..]);
      assert Split(s) == [[s[0]] + t[0]] + t[1..];
      forall i | 1 <= i && i + |Marker| <= |s|
        ensures MarkerAt(s, i) <==> MarkerAt(s[1..], i - 1)
      {
        assert s[i..i + |Marker|] == s[1..][i - 1..i - 1 + |Marker|];
      }
      if |t| == 1 {
        assert s == [s[0]] + s[1..];
      } else {
        assert s[1..][|t[0]| + |Marker|..] == s[|t[0]| + 1 + |Marker|..];
      }
    }
  }

  /** Text without underscores cannot take part in a marker. */
  predicate Plain(p: string) {
    forall i :: 0 <= i < |p| ==> p[i] != '_'
  }

  /** A character other than an underscore in front of `x` joins the first segment. */
  lemma SplitPlainChar(c: char, x: string)
    requires c != '_'
    ensures Split([c] + x) == [[c] + Split(x)[0]] + Split(x)[1..]
    ensures CountMarkers([c] + x) == CountMarkers(x)
  {
    var s := [c] + x;
    assert s[1..] == x;
    if |s| >= |Marker| {
      assert s[..|Marker|][0] == c;
    }
  }

  /** Plain text in front of `x` only lengthens the first segment. */
  lemma {:induction false} SplitPlainPrefix(p: string, x: string)
    requires Plain(p)
    ensures Split(p + x) == [p + Split(x)[0]] + Split(x)[1..]
    ensures CountMarkers(p + x) == CountMarkers(x)
    decreases |p|
  {
    if |p| == 0 {
      assert p + x == x;
      assert p + Split(x)[0] == Split(x)[0];
      assert [Split(x)[0]] + Split(x)[1..] == Split(x);
    } else {
      var y := p[1..] + x;
      SplitPlainPrefix(p[1..], x);
      SplitPlainChar(p[0], y);
      assert p + x == [p[0]] + y;
      assert [p[0]] + (p[1..] + Split(x)[0]) == p + Split(x)[0];
    }
  }

  /** A marker at the front cuts off an empty first segment. */
  lemma SplitMarkerPrefix(x: string)
    ensures Split(Marker + x) == [""] + Split(x)
    ensures CountMarkers(Marker + x) == 1 + CountMarkers(x)
  {
  }

  /** Plain text, a marker, plain text, a marker, plain text: three segments around two markers. */
  lemma SplitTwoMarkers(a: string, b: string, c: string)
    requires Plain(a) && Plain(b) && Plain(c)
    ensures Split(a + Marker + b + Marker + c) == [a, b, c]
    ensures CountMarkers(a + Marker + b + Marker + c) == 2
  {
    var rest := b + Marker + c;
    SplitOneMarker(b, c);
    SplitMarkerPrefix(rest);
    assert Split(Marker + rest) == ["", b, c];
    SplitPlainPrefix(a, Marker + rest);
    assert a + Marker + b + Marker + c == a + (Marker + rest);
  }

  /** Plain text, a marker, plain text: two segments around one marker. */
  lemma SplitOneMarker(b: string, c: string)
    requires Plain(b) && Plain(c)
    ensures Split(b + Marker + c) == [b, c]
    ensures CountMarkers(b + Marker + c) == 1
  {
    SplitPlain(c);
    SplitMarkerPrefix(c);
    SplitPlainPrefix(b, Marker + c);
    assert b + Marker + c == b + (Marker + c);
  }

  /** Text without underscores is a single segment. */
  lemma SplitPlain(c: string)
    requires Plain(c)
    ensures Split(c) == [c] && CountMarkers(c) == 0
  {
    SplitPlainPrefix(c, "");
    assert c + "" == c;
  }
}
