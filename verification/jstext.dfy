/**
 The few JavaScript string operations the routes rely on: `startsWith`,
 `split` on a one-character separator, and the `split(',')[1]` idiom used to
 pull the base64 payload out of a data URI.
 */
module JsText {
  import opened Wrappers

  /** `s.startsWith(prefix)`. */
  predicate StartsWith(s: string, prefix: string) {
    |prefix| <= |s| && s[..|prefix|] == prefix
  }

  /** `s.indexOf(c)`, with `None` for -1: the position of the first `c`. */
  function IndexOf(s: string, c: char): (r: Option<nat>)
    ensures r.None? <==> c !in s
    ensures r.Some? ==> r.value < |s| && s[r.value] == c && c !in s[..r.value]
  {
    if |s| == 0 then None
    else if s[0] == c then Some(0)
    else match IndexOf(s[1..], c)
      case None => None
      case Some(i) =>
        assert s[..i + 1] == [s[0]] + s[1..][..i];
        Some(i + 1)
  }

  /** Number of occurrences of `c` in `s`. */
  function Count(s: string, c: char): nat {
    if |s| == 0 then 0 else (if s[0] == c then 1 else 0) + Count(s[1..], c)
  }

  /**
   `s.split(sep)` for a one-character separator: the maximal separator-free
   runs of `s`, left to right. There is always at least one part, and there is
   one part more than there are separators.
   */
  function Split(s: string, sep: char): (parts: seq<string>)
    ensures |parts| >= 1
    decreases |s|
  {
    match IndexOf(s, sep)
    case None => [s]
    case Some(i) => [s[..i]] + Split(s[i + 1..], sep)
  }

  /** A split has a single part exactly when the separator does not occur. */
  lemma {:induction false} SplitSingle(s: string, sep: char)
    ensures |Split(s, sep)| == 1 <==> sep !in s
    ensures sep !in s ==> Split(s, sep) == [s]
  {
    match IndexOf(s, sep)
    case None =>
    case Some(i) =>
      assert |Split(s, sep)| == 1 + |Split(s[i + 1..], sep)|;
  }

  /** No part of a split contains the separator. */
  lemma {:induction false} SplitPartsFree(s: string, sep: char)
    ensures forall k :: 0 <= k < |Split(s, sep)| ==> sep !in Split(s, sep)[k]
    decreases |s|
  {
    match IndexOf(s, sep)
    case None =>
    case Some(i) =>
      SplitPartsFree(s[i + 1..], sep);
      var rest := Split(s[i + 1..], sep);
      assert Split(s, sep) == [s[..i]] + rest;
      forall k | 0 <= k < |Split(s, sep)| ensures sep !in Split(s, sep)[k] {
        if k > 0 {
          assert Split(s, sep)[k] == rest[k - 1];
        }
      }
  }

  /** `parts.join(sep)`: the inverse of `Split`. */
  function Join(parts: seq<string>, sep: char): string
    requires |parts| >= 1
  {
    if |parts| == 1 then parts[0] else parts[0] + [sep] + Join(parts[1..], sep)
  }

  /** Joining the parts of a split gives back the original string. */
  lemma {:induction false} JoinSplit(s: string, sep: char)
    ensures Join(Split(s, sep), sep) == s
    decreases |s|
  {
    match IndexOf(s, sep)
    case None =>
    case Some(i) =>
      var rest := Split(s[i + 1..], sep);
      JoinSplit(s[i + 1..], sep);
      var parts := Split(s, sep);
      assert parts == [s[..i]] + rest;
      assert parts[0] == s[..i] && parts[1..] == rest;
      assert Join(parts, sep) == s[..i] + [sep] + Join(rest, sep);
      assert s == s[..i] + [sep] + s[i + 1..];
  }

  /** Splitting a join of separator-free parts gives back the parts. */
  lemma {:induction false} SplitJoin(parts: seq<string>, sep: char)
    requires |parts| >= 1
    requires forall k :: 0 <= k < |parts| ==> sep !in parts[k]
    ensures Split(Join(parts, sep), sep) == parts
    decreases |parts|
  {
    if |parts| > 1 {
      FreeTail(parts, sep);
      SplitJoin(parts[1..], sep);
      SplitJoinStep(parts, sep);
    } else {
      assert Join(parts, sep) == parts[0];
      SplitSingle(parts[0], sep);
    }
  }

  lemma {:induction false} SplitJoinStep(parts: seq<string>, sep: char)
    requires |parts| > 1 && sep !in parts[0]
    requires Split(Join(parts[1..], sep), sep) == parts[1..]
    ensures Split(Join(parts, sep), sep) == parts
  {
    var s := Join(parts, sep);
    var i := |parts[0]|;
    JoinHead(parts, sep);
    SplitAt(s, sep, i);
    assert Split(s, sep) == [parts[0]] + parts[1..];
    assert parts == [parts[0]] + parts[1..];
  }

  /** The first separator of a join sits right after the first part. */
  lemma {:induction false} JoinHead(parts: seq<string>, sep: char)
    requires |parts| > 1 && sep !in parts[0]
    ensures var s := Join(parts, sep);
            var i := |parts[0]|;
            && i < |s| && IndexOf(s, sep) == Some(i)
            && s[..i] == parts[0] && s[i + 1..] == Join(parts[1..], sep)
  {
    var s := Join(parts, sep);
    var tail := Join(parts[1..], sep);
    var i := |parts[0]|;
    assert s == parts[0] + [sep] + tail;
    assert s[..i] == parts[0];
    assert s[i] == sep;
    IndexOfIs(s, sep, i);
    assert s[i + 1..] == tail;
  }

  /** One step of `Split`: the text before the first separator, then the split of the rest. */
  lemma {:induction false} SplitAt(s: string, sep: char, i: nat)
    requires IndexOf(s, sep) == Some(i)
    ensures i < |s| && Split(s, sep) == [s[..i]] + Split(s[i + 1..], sep)
  {
  }

  lemma {:induction false} FreeTail(parts: seq<string>, sep: char)
    requires |parts| >= 1
    requires forall k :: 0 <= k < |parts| ==> sep !in parts[k]
    ensures forall k :: 0 <= k < |parts[1..]| ==> sep !in parts[1..][k]
  {
    forall k | 0 <= k < |parts[1..]| ensures sep !in parts[1..][k] {
      assert parts[1..][k] == parts[k + 1];
    }
  }

  /** There is one more part than there are separators. */
  lemma {:induction false} SplitCount(s: string, sep: char)
    ensures |Split(s, sep)| == Count(s, sep) + 1
    decreases |s|
  {
    match IndexOf(s, sep)
    case None =>
      CountAbsent(s, sep);
    case Some(i) =>
      SplitCount(s[i + 1..], sep);
      CountAppend(s[..i], s[i..], sep);
      assert s == s[..i] + s[i..];
      CountAbsent(s[..i], sep);
      assert s[i..][1..] == s[i + 1..];
  }

  lemma {:induction false} CountAbsent(s: string, c: char)
    requires c !in s
    ensures Count(s, c) == 0
    decreases |s|
  {
    if |s| > 0 {
      assert c !in s[1..] by {
        forall k | 0 <= k < |s[1..]| ensures s[1..][k] != c {
          assert s[1..][k] == s[k + 1];
        }
      }
      CountAbsent(s[1..], c);
    }
  }

  lemma {:induction false} CountAppend(a: string, b: string, c: char)
    ensures Count(a + b, c) == Count(a, c) + Count(b, c)
    decreases |a|
  {
    if |a| > 0 {
      assert (a + b)[1..] == a[1..] + b;
      CountAppend(a[1..], b, c);
    } else {
      assert a + b == b;
    }
  }

  /**
   `s.split(',')[1]`: the second comma-separated part, or `None` (JavaScript
   `undefined`) when `s` has no comma.
   */
  function SecondSegment(s: string): (r: Option<string>)
    ensures r.Some? <==> ',' in s
    ensures r.Some? ==> ',' !in r.value && |r.value| < |s|
  {
    var parts := Split(s, ',');
    SplitSingle(s, ',');
    if |parts| > 1 then
      SegmentIsInside(s);
      SplitPartsFree(s, ',');
      Some(parts[1])
    else None
  }

  lemma {:induction false} SegmentIsInside(s: string)
    requires ',' in s
    ensures |Split(s, ',')| > 1 && |Split(s, ',')[1]| < |s|
  {
    var i := IndexOf(s, ',').value;
    SplitAt(s, ',', i);
    FirstPart(s[i + 1..], ',');
  }

  /** The first part of a split: everything before the first separator. */
  lemma {:induction false} FirstPart(t: string, sep: char)
    ensures IndexOf(t, sep).None? ==> Split(t, sep)[0] == t
    ensures IndexOf(t, sep).Some? ==> Split(t, sep)[0] == t[..IndexOf(t, sep).value]
  {
  }

  /** With the first comma at `i`, the payload is the first part of the text after it. */
  lemma {:induction false} SecondSegmentAt(s: string, i: nat)
    requires IndexOf(s, ',') == Some(i)
    ensures SecondSegment(s) == Some(Split(s[i + 1..], ',')[0])
  {
    SplitAt(s, ',', i);
    SplitSingle(s, ',');
  }

  /**
   The payload `split(',')[1]` is exactly the text strictly between the first
   comma and the next comma (or the end of the string): everything after a
   second comma is dropped.
   */
  lemma {:induction false} SecondSegmentBetweenCommas(s: string)
    requires ',' in s
    ensures var i := IndexOf(s, ',').value;
            var p := SecondSegment(s).value;
            && i + 1 + |p| <= |s|
            && p == s[i + 1..i + 1 + |p|]
            && (i + 1 + |p| == |s| || s[i + 1 + |p|] == ',')
  {
    var i := IndexOf(s, ',').value;
    SecondSegmentAt(s, i);
    FirstPartAfter(s, i);
  }

  /** The first part of the text after position `i` lies between `i` and the next separator or the end. */
  lemma {:induction false} FirstPartAfter(s: string, i: nat)
    requires i < |s|
    ensures var p := Split(s[i + 1..], ',')[0];
            && i + 1 + |p| <= |s|
            && p == s[i + 1..i + 1 + |p|]
            && (i + 1 + |p| == |s| || s[i + 1 + |p|] == ',')
  {
    var t := s[i + 1..];
    FirstPartBounds(t, ',');
    var p := Split(t, ',')[0];
    assert t[..|p|] == s[i + 1..i + 1 + |p|];
    assert |p| < |t| ==> t[|p|] == s[i + 1 + |p|];
  }

  /** The first part of a split is a prefix that ends at the end or at a separator. */
  lemma {:induction false} FirstPartBounds(t: string, sep: char)
    ensures var p := Split(t, sep)[0];
            |p| <= |t| && p == t[..|p|] && (|p| == |t| || t[|p|] == sep)
  {
    FirstPart(t, sep);
  }

  /** `IndexOf` is determined by its contract: the first occurrence. */
  lemma {:induction false} IndexOfIs(s: string, c: char, i: nat)
    requires i < |s| && s[i] == c && c !in s[..i]
    ensures IndexOf(s, c) == Some(i)
  {
    if i > 0 {
      assert s[0] == s[..i][0];
      assert s[1..][i - 1] == c;
      assert s[1..][..i - 1] == s[..i][1..];
      IndexOfIs(s[1..], c, i - 1);
    }
  }

  /** The second part of a data URI is its base64 payload. */
  lemma {:induction false} SecondSegmentOfDataUri()
    ensures SecondSegment("data:image/png;base64,QUJD") == Some("QUJD")
  {
    var s := "data:image/png;base64,QUJD";
    assert s[21] == ',';
    assert s[..21] == "data:image/png;base64";
    IndexOfIs(s, ',', 21);
    SecondSegmentAt(s, 21);
    assert s[22..] == "QUJD";
    assert ',' !in "QUJD";
    FirstPart("QUJD", ',');
  }

  /** Only the text up to the second comma is taken. */
  lemma {:induction false} SecondSegmentStopsAtComma()
    ensures SecondSegment("a,b,c") == Some("b")
  {
    IndexOfIs("a,b,c", ',', 1);
    SecondSegmentAt("a,b,c", 1);
    assert "a,b,c"[2..] == "b,c";
    IndexOfIs("b,c", ',', 1);
    FirstPart("b,c", ',');
    assert "b,c"[..1] == "b";
  }

  /** A trailing comma, or two commas in a row, give an empty payload. */
  lemma {:induction false} SecondSegmentEmpty()
    ensures SecondSegment("x,") == Some("")
    ensures SecondSegment("x,,y") == Some("")
  {
    IndexOfIs("x,", ',', 1);
    SecondSegmentAt("x,", 1);
    assert "x,"[2..] == "";
    FirstPart("", ',');
    IndexOfIs("x,,y", ',', 1);
    SecondSegmentAt("x,,y", 1);
    assert "x,,y"[2..] == ",y";
    IndexOfIs(",y", ',', 0);
    FirstPart(",y", ',');
  }
}
