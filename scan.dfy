/**
 * The part of C's `sscanf` that the redirector uses: a format made only of
 * `%<width>s` conversions (a blank between two of them changes nothing, since
 * `%s` skips leading whitespace by itself).  Each conversion skips whitespace,
 * then stores at most `width` non-whitespace characters; a word longer than the
 * width is cut, and its remainder is what the next conversion reads.  Scanning
 * stops at the first conversion that meets the end of the input.
 */
module Scanf {
  import opened Wrappers

  /** `isspace` in the C locale: blank, \t, \n, \v, \f and \r. */
  predicate IsSpace(c: char) {
    c == ' ' || 9 <= c as int <= 13
  }

  /** A string one `%s` conversion can store: no whitespace in it. */
  predicate IsWord(s: string) {
    forall i :: 0 <= i < |s| ==> !IsSpace(s[i])
  }

  predicate AllSpace(s: string) {
    forall i :: 0 <= i < |s| ==> IsSpace(s[i])
  }

  /**
   * The C string held in a buffer: its characters up to the first NUL.
   * `strlen` and `sscanf` see only this part of what `fgets` stored.
   */
  function CString(buf: string): (s: string)
    ensures |s| <= |buf|
  {
    if buf == [] || buf[0] == '\0' then [] else [buf[0]] + CString(buf[1..])
  }

  /** The C string is the longest NUL-free start of the buffer. */
  lemma {:induction false} CStringSpec(buf: string)
    ensures CString(buf) == buf[..|CString(buf)|] && '\0' !in CString(buf)
    ensures |CString(buf)| < |buf| ==> buf[|CString(buf)|] == '\0'
  {
    if buf != [] && buf[0] != '\0' {
      CStringSpec(buf[1..]);
      assert buf == [buf[0]] + buf[1..];
    }
  }

  /** A NUL-free start of a buffer is part of its C string. */
  lemma {:induction false} CStringAppend(a: string, b: string)
    requires '\0' !in a
    ensures CString(a + b) == a + CString(b)
  {
    if a != [] {
      assert a[0] in a && '\0' !in a[1..];
      var ab := a + b;
      assert ab[0] == a[0] && ab[1..] == a[1..] + b;
      calc {
        CString(ab);
        [a[0]] + CString(a[1..] + b);
      == { CStringAppend(a[1..], b); }
        [a[0]] + (a[1..] + CString(b));
      == { assert a == [a[0]] + a[1..]; }
        a + CString(b);
      }
    } else {
      assert a + b == b;
    }
  }

  /** A buffer that is empty or starts with whitespace holds a C string that does too. */
  lemma CStringStartsBlank(buf: string)
    requires buf == [] || IsSpace(buf[0])
    ensures CString(buf) == [] || IsSpace(CString(buf)[0])
  {
    if buf != [] {
      CStringSpec(buf);
      assert CString(buf)[0] == buf[0];
    }
  }

  /** Length of the leading whitespace of `s`, which a conversion skips. */
  function SpaceLength(s: string): (n: nat)
    ensures n <= |s|
  {
    if s != [] && IsSpace(s[0]) then 1 + SpaceLength(s[1..]) else 0
  }

  /** The skipped prefix is all whitespace, and what follows it is not. */
  lemma {:induction false} SpaceLengthSpec(s: string)
    ensures AllSpace(s[..SpaceLength(s)])
    ensures SpaceLength(s) < |s| ==> !IsSpace(s[SpaceLength(s)])
  {
    if s != [] && IsSpace(s[0]) {
      SpaceLengthSpec(s[1..]);
      assert s[..SpaceLength(s)] == [s[0]] + s[1..][..SpaceLength(s[1..])];
    }
  }

  /** Length of the word at the head of `s`, cut at `width` characters. */
  function WordLength(s: string, width: nat): (n: nat)
    ensures n <= width && n <= |s|
  {
    if width == 0 || s == [] || IsSpace(s[0]) then 0
    else 1 + WordLength(s[1..], width - 1)
  }

  /** The word taken holds no whitespace, and stops short of `width` only at whitespace or the end. */
  lemma {:induction false} WordLengthSpec(s: string, width: nat)
    ensures IsWord(s[..WordLength(s, width)])
    ensures WordLength(s, width) < width && WordLength(s, width) < |s| ==> IsSpace(s[WordLength(s, width)])
  {
    if !(width == 0 || s == [] || IsSpace(s[0])) {
      WordLengthSpec(s[1..], width - 1);
      assert s[..WordLength(s, width)] == [s[0]] + s[1..][..WordLength(s[1..], width - 1)];
    }
  }

  /**
   * One `%<width>s` conversion on the input `s`: the word it stores and the
   * input left for the next conversion, or None when only whitespace is left.
   */
  function ScanWord(s: string, width: nat): (r: Option<(string, string)>)
    requires width > 0
    ensures r.Some? ==> |r.value.0| <= width
  {
    var k := SpaceLength(s);
    if k == |s| then None
    else
      var t := s[k..];
      var n := WordLength(t, width);
      Some((t[..n], t[n..]))
  }

  /** A conversion fails exactly when the input is blank. */
  lemma ScanWordBlank(s: string, width: nat)
    requires width > 0
    ensures ScanWord(s, width).None? <==> AllSpace(s)
  {
    var k := SpaceLength(s);
    SpaceLengthSpec(s);
    if k == |s| {
      assert s[..k] == s;
    } else {
      assert !IsSpace(s[k]);
    }
  }

  /** The word at the head of input that starts with a non-blank, and what follows it. */
  lemma WordSplit(t: string, width: nat)
    requires width > 0 && t != [] && !IsSpace(t[0])
    ensures var n := WordLength(t, width);
      && 0 < n && IsWord(t[..n])
      && (n < width ==> t[n..] == [] || IsSpace(t[n..][0]))
      && t == t[..n] + t[n..]
  {
    var n := WordLength(t, width);
    WordLengthSpec(t, width);
    if n < width && n < |t| {
      assert t[n..][0] == t[n];
    }
  }

  /** A conversion that succeeds stores a non-empty word of at most `width` characters, cut short only at whitespace or the end. */
  lemma ScanWordStores(s: string, width: nat)
    requires width > 0 && ScanWord(s, width).Some?
    ensures var (w, rest) := ScanWord(s, width).value;
      && 0 < |w| <= width && IsWord(w)
      && (|w| < width ==> rest == [] || IsSpace(rest[0]))
  {
    var k := SpaceLength(s);
    SpaceLengthSpec(s);
    var t := s[k..];
    assert t[0] == s[k];
    WordSplit(t, width);
  }

  /** The input of a conversion that succeeds is the skipped blanks, the word and the rest. */
  lemma ScanWordSplits(s: string, width: nat)
    requires width > 0 && ScanWord(s, width).Some?
    ensures s == s[..SpaceLength(s)] + ScanWord(s, width).value.0 + ScanWord(s, width).value.1
  {
    var k := SpaceLength(s);
    var n := WordLength(s[k..], width);
    ThreeParts(s, k, n);
  }

  lemma ThreeParts<T>(s: seq<T>, k: nat, n: nat)
    requires k + n <= |s|
    ensures s == s[..k] + s[k..][..n] + s[k..][n..]
  {
    var r := s[..k] + s[k..][..n] + s[k..][n..];
    assert |r| == |s|;
    forall i | 0 <= i < |s|
      ensures r[i] == s[i]
    {
      if i < k {
      } else if i < k + n {
        assert r[i] == s[k..][..n][i - k];
      } else {
        assert r[i] == s[k..][n..][i - k - n];
      }
    }
  }

  /**
   * The words `sscanf` assigns for a format of `%s` conversions with the given
   * widths, in order.  Its return value is the number of these words (or EOF
   * when there are none; callers here only compare it with a positive count).
   */
  function Scan(s: string, widths: seq<nat>): (words: seq<string>)
    requires forall i :: 0 <= i < |widths| ==> widths[i] > 0
    ensures |words| <= |widths|
    decreases |widths|
  {
    if widths == [] then []
    else
      var r := ScanWord(s, widths[0]);
      if r.None? then []
      else [r.value.0] + Scan(r.value.1, widths[1..])
  }

  /** A format with at least one conversion assigns nothing exactly when the input is blank. */
  lemma ScanBlank(s: string, widths: seq<nat>)
    requires 0 < |widths| && forall i :: 0 <= i < |widths| ==> widths[i] > 0
    ensures Scan(s, widths) == [] <==> AllSpace(s)
  {
    ScanWordBlank(s, widths[0]);
  }

  /** Every word `sscanf` stores is non-empty, free of whitespace and within its width. */
  lemma {:induction false} ScanFits(s: string, widths: seq<nat>, i: nat)
    requires forall j :: 0 <= j < |widths| ==> widths[j] > 0
    requires i < |Scan(s, widths)|
    ensures 0 < |Scan(s, widths)[i]| <= widths[i] && IsWord(Scan(s, widths)[i])
    decreases |widths|
  {
    var r := ScanWord(s, widths[0]);
    var more := Scan(r.value.1, widths[1..]);
    assert Scan(s, widths) == [r.value.0] + more;
    if i == 0 {
      ScanWordStores(s, widths[0]);
    } else {
      ScanFits(r.value.1, widths[1..], i - 1);
      assert Scan(s, widths)[i] == more[i - 1];
    }
  }

  /** Words separated by single blanks: the shape of a well-formed protocol line. */
  function Unwords(ws: seq<string>): string {
    if ws == [] then ""
    else if |ws| == 1 then ws[0]
    else ws[0] + " " + Unwords(ws[1..])
  }

  lemma {:induction false} WordLengthOf(w: string, rest: string, width: nat)
    requires |w| <= width && IsWord(w)
    requires |w| < width ==> rest == [] || IsSpace(rest[0])
    ensures WordLength(w + rest, width) == |w|
  {
    if w != [] {
      assert (w + rest)[1..] == w[1..] + rest;
      WordLengthOf(w[1..], rest, width - 1);
    } else if rest != [] && width > 0 {
      assert (w + rest)[0] == rest[0];
    }
  }

  lemma SkipWord(w: string, rest: string, width: nat)
    requires width > 0 && 0 < |w| <= width && IsWord(w)
    requires |w| < width ==> rest == [] || IsSpace(rest[0])
    ensures ScanWord(w + rest, width) == Some((w, rest))
  {
    var s := w + rest;
    assert SpaceLength(s) == 0 by {
      assert s[0] == w[0];
    }
    assert s[0..] == s;
    WordLengthOf(w, rest, width);
    assert s[..|w|] == w && s[|w|..] == rest;
  }

  lemma ScanStep(s: string, widths: seq<nat>, w: string, rest: string)
    requires |widths| > 0
    requires forall i :: 0 <= i < |widths| ==> widths[i] > 0
    requires ScanWord(s, widths[0]) == Some((w, rest))
    ensures Scan(s, widths) == [w] + Scan(rest, widths[1..])
  {
  }

  lemma {:induction false} SkipLeadingSpace(s: string, c: char, widths: seq<nat>)
    requires IsSpace(c)
    requires forall i :: 0 <= i < |widths| ==> widths[i] > 0
    ensures Scan([c] + s, widths) == Scan(s, widths)
  {
    if widths != [] {
      assert ([c] + s)[1..] == s;
      assert SpaceLength([c] + s) == 1 + SpaceLength(s);
      assert ([c] + s)[1 + SpaceLength(s)..] == s[SpaceLength(s)..];
    }
  }

  /** Whitespace in front of the input is skipped along with the input's own. */
  lemma {:induction false} SpaceLengthAfter(gap: string, s: string)
    requires AllSpace(gap)
    ensures SpaceLength(gap + s) == |gap| + SpaceLength(s)
  {
    if gap != [] {
      var t := gap + s;
      assert t[0] == gap[0] && IsSpace(gap[0]);
      assert t[1..] == gap[1..] + s;
      assert AllSpace(gap[1..]) by {
        forall i | 0 <= i < |gap| - 1 ensures IsSpace(gap[1..][i]) {
          assert gap[1..][i] == gap[i + 1];
        }
      }
      SpaceLengthAfter(gap[1..], s);
    } else {
      assert gap + s == s;
    }
  }

  lemma ScanWordAfterSpace(gap: string, s: string, width: nat)
    requires AllSpace(gap) && width > 0
    ensures ScanWord(gap + s, width) == ScanWord(s, width)
  {
    SpaceLengthAfter(gap, s);
    var k := SpaceLength(s);
    assert (gap + s)[|gap| + k..] == s[k..];
  }

  /** Whitespace in front of the input changes nothing a scan stores. */
  lemma SkipSpaces(gap: string, s: string, widths: seq<nat>)
    requires AllSpace(gap)
    requires forall i :: 0 <= i < |widths| ==> widths[i] > 0
    ensures Scan(gap + s, widths) == Scan(s, widths)
  {
    if widths != [] {
      ScanWordAfterSpace(gap, s, widths[0]);
    }
  }

  lemma UnwordsCons(ws: seq<string>, tail: string)
    requires |ws| > 1
    ensures Unwords(ws) + tail == ws[0] + ([' '] + (Unwords(ws[1..]) + tail))
  {
  }

  /**
   * Scanning a line made of words that fit their widths, separated by
   * blanks and followed by nothing or by whitespace (the line terminator),
   * gives those words back.
   */
  lemma {:induction false} ScanUnwords(ws: seq<string>, widths: seq<nat>, tail: string)
    requires |ws| == |widths|
    requires forall i :: 0 <= i < |widths| ==> widths[i] > 0
    requires forall i :: 0 <= i < |ws| ==> 0 < |ws[i]| <= widths[i] && IsWord(ws[i])
    requires tail == [] || IsSpace(tail[0])
    ensures Scan(Unwords(ws) + tail, widths) == ws
  {
    if ws != [] {
      if |ws| == 1 {
        assert Unwords(ws) + tail == ws[0] + tail;
        SkipWord(ws[0], tail, widths[0]);
        ScanStep(ws[0] + tail, widths, ws[0], tail);
      } else {
        var rest := Unwords(ws[1..]) + tail;
        calc {
          Scan(Unwords(ws) + tail, widths);
        == { UnwordsCons(ws, tail); }
          Scan(ws[0] + ([' '] + rest), widths);
        == { SkipWord(ws[0], [' '] + rest, widths[0]);
             ScanStep(ws[0] + ([' '] + rest), widths, ws[0], [' '] + rest); }
          [ws[0]] + Scan([' '] + rest, widths[1..]);
        == { SkipLeadingSpace(rest, ' ', widths[1..]); }
          [ws[0]] + Scan(rest, widths[1..]);
        == { ScanUnwords(ws[1..], widths[1..], tail); }
          [ws[0]] + ws[1..];
        }
        assert ws == [ws[0]] + ws[1..];
      }
    }
  }
}
