/** Line endings of clipboard text (desktop/WindowsClipboard.cpp).  RFC 6143,
    sections 7.5.6 and 7.6.4, wants a lone line feed; Windows wants a carriage
    return before it.  Text holds no NUL. */
module Clipboards {

  const CR := '\r'
  const LF := '\n'

  /** A carriage return before a line feed is dropped. */
  function ToRfb(s: string): string {
    if s == [] then []
    else if s[0] == CR && |s| > 1 && s[1] == LF then ToRfb(s[1..])
    else [s[0]] + ToRfb(s[1..])
  }

  /** A carriage return is put before every line feed. */
  function FromRfb(s: string): string {
    if s == [] then []
    else if s[0] == LF then [CR, LF] + FromRfb(s[1..])
    else [s[0]] + FromRfb(s[1..])
  }

  function LfCount(s: string): nat {
    if s == [] then 0 else LfCount(s[..|s| - 1]) + if s[|s| - 1] == LF then 1 else 0
  }

  /** Every line feed has its carriage return. */
  ghost predicate HasWindowsLines(s: string) {
    forall i :: 0 <= i < |s| && s[i] == LF ==> i > 0 && s[i - 1] == CR
  }

  lemma {:induction false} LfCountFirst(s: string)
    requires s != []
    ensures LfCount(s) == (if s[0] == LF then 1 else 0) + LfCount(s[1..])
  {
    if |s| > 1 {
      LfCountFirst(s[..|s| - 1]);
      assert s[1..][..|s| - 2] == s[..|s| - 1][1..];
    }
  }

  /** The size of the output array. */
  lemma {:induction false} FromRfbLength(s: string)
    ensures |FromRfb(s)| == |s| + LfCount(s)
  {
    if s != [] {
      LfCountFirst(s);
      FromRfbLength(s[1..]);
    }
  }

  lemma StartsWithoutLf(s: string)
    ensures FromRfb(s) != [] ==> FromRfb(s)[0] != LF
  {
  }

  /** To the peer and back is the identity on every string, also with stray
      carriage returns. */
  lemma {:induction false} ToAfterFrom(s: string)
    ensures ToRfb(FromRfb(s)) == s
  {
    if s != [] {
      var rest := FromRfb(s[1..]);
      ToAfterFrom(s[1..]);
      StartsWithoutLf(s[1..]);
      if s[0] == LF {
        assert FromRfb(s)[1..] == [LF] + rest && ([LF] + rest)[1..] == rest;
      } else {
        assert FromRfb(s)[1..] == rest;
      }
    }
  }

  lemma {:induction false} FromHasWindowsLines(s: string)
    ensures HasWindowsLines(FromRfb(s))
  {
    if s != [] {
      FromHasWindowsLines(s[1..]);
      StartsWithoutLf(s[1..]);
    }
  }

  lemma {:induction false} FromAfterToOfWindowsLines(s: string)
    requires HasWindowsLines(s)
    ensures FromRfb(ToRfb(s)) == s
  {
    if s != [] {
      if s[0] == CR && |s| > 1 && s[1] == LF {
        assert HasWindowsLines(s[2..]);
        FromAfterToOfWindowsLines(s[2..]);
        assert s[1..][1..] == s[2..];
        assert ToRfb(s[1..]) == [LF] + ToRfb(s[2..]);
        assert ToRfb(s[1..])[1..] == ToRfb(s[2..]);
        assert s == [CR, LF] + s[2..];
      } else {
        assert HasWindowsLines(s[1..]);
        FromAfterToOfWindowsLines(s[1..]);
        assert ToRfb(s)[1..] == ToRfb(s[1..]);
      }
    }
  }

  /** The other order is the identity exactly on text with Windows lines. */
  lemma FromAfterToIff(s: string)
    ensures FromRfb(ToRfb(s)) == s <==> HasWindowsLines(s)
  {
    FromHasWindowsLines(ToRfb(s));
    if HasWindowsLines(s) {
      FromAfterToOfWindowsLines(s);
    }
  }

  ghost predicate HasPair(s: string) {
    exists i: nat :: i + 1 < |s| && s[i] == CR && s[i + 1] == LF
  }

  ghost predicate HasTriple(s: string) {
    exists i: nat :: i + 2 < |s| && s[i] == CR && s[i + 1] == CR && s[i + 2] == LF
  }

  lemma PairAfterOne(c: char, s: string)
    ensures HasPair([c] + s) <==> HasPair(s) || (c == CR && s != [] && s[0] == LF)
  {
    var t := [c] + s;
    if i: nat :| i + 1 < |s| && s[i] == CR && s[i + 1] == LF {
      assert t[i + 1] == CR && t[i + 1 + 1] == LF;
    }
    if c == CR && s != [] && s[0] == LF {
      assert t[0] == CR && t[0 + 1] == LF;
    }
    if i: nat :| i + 1 < |t| && t[i] == CR && t[i + 1] == LF {
      if i > 0 {
        assert s[i - 1] == CR && s[i - 1 + 1] == LF;
      }
    }
  }

  lemma TripleAfterOne(s: string)
    requires s != []
    ensures HasTriple(s) <==> HasTriple(s[1..]) || (|s| > 2 && s[0] == CR && s[1] == CR && s[2] == LF)
  {
    var t := s[1..];
    if i: nat :| i + 2 < |t| && t[i] == CR && t[i + 1] == CR && t[i + 2] == LF {
      assert s[i + 1] == CR && s[i + 1 + 1] == CR && s[i + 1 + 2] == LF;
    }
    if |s| > 2 && s[0] == CR && s[1] == CR && s[2] == LF {
      assert s[0 + 1] == CR && s[0 + 2] == LF;
    }
    if i: nat :| i + 2 < |s| && s[i] == CR && s[i + 1] == CR && s[i + 2] == LF {
      if i > 0 {
        assert t[i - 1] == CR && t[i - 1 + 1] == CR && t[i - 1 + 2] == LF;
      }
    }
  }

  /** A carriage return before a line feed still goes out exactly for text with
      two of them before a line feed: each line feed drops only one. */
  lemma {:induction false} PairGoesOutIff(s: string)
    ensures HasPair(ToRfb(s)) <==> HasTriple(s)
  {
    hide HasPair, HasTriple;
    if s == [] {
      NothingHasPairs();
    } else {
      var t := s[1..];
      TripleAfterOne(s);
      PairGoesOutIff(t);
      if !(s[0] == CR && |s| > 1 && s[1] == LF) {
        PairAfterOne(s[0], ToRfb(t));
        StartsWithLfIff(t);
      }
    }
  }

  lemma NothingHasPairs()
    ensures !HasPair([]) && !HasTriple([])
  {
  }

  lemma StartsWithLfIff(s: string)
    ensures ToRfb(s) != [] && ToRfb(s)[0] == LF <==> s != [] && (s[0] == LF || (s[0] == CR && |s| > 1 && s[1] == LF))
  {
  }

  lemma ToStep(done: string, source: string, i: nat)
    requires i < |source|
    ensures (if source[i] == CR && i + 1 < |source| && source[i + 1] == LF then done else done + [source[i]])
              + ToRfb(source[i + 1..]) == done + ToRfb(source[i..])
  {
    assert source[i..][1..] == source[i + 1..];
  }

  lemma FromStep(done: string, source: string, i: nat)
    requires i < |source|
    ensures done + (if source[i] == LF then [CR, LF] else [source[i]]) + FromRfb(source[i + 1..]) ==
            done + FromRfb(source[i..])
  {
    assert source[i..][1..] == source[i + 1..];
  }

  method ConvertToRfbFormat(source: string) returns (dest: string)
    ensures dest == ToRfb(source)
  {
    hide ToRfb;
    var rfbText := new char[|source| + 1];
    var j := 0;
    assert source[0..] == source;
    for i := 0 to |source|
      invariant j <= i
      invariant rfbText[..j] + ToRfb(source[i..]) == ToRfb(source)
    {
      ghost var done := rfbText[..j];
      ToStep(done, source, i);
      if !(source[i] == CR && i + 1 < |source| && source[i + 1] == LF) {
        rfbText[j] := source[i];
        j := j + 1;
        assert rfbText[..j] == done + [source[i]];
      }
    }
    dest := rfbText[..j];
    NothingLeft(source);
  }

  lemma NothingLeft(s: string)
    ensures ToRfb(s[|s|..]) == [] && FromRfb(s[|s|..]) == []
  {
  }

  /** The array has room for every added carriage return, and no more. */
  method ConvertFromRfbFormat(source: string) returns (dest: string, ghost size: nat)
    ensures dest == FromRfb(source) && size == |dest| + 1
  {
    var lfCount := CountLf(source);
    FromRfbLength(source);
    var destLen := |source| + lfCount;
    var destText := new char[destLen + 1];
    size := destText.Length;
    hide FromRfb;
    var j := 0;
    ghost var done := "";
    assert source[0..] == source;
    for i := 0 to |source|
      invariant j == |done| <= destLen && destText[..j] == done
      invariant done + FromRfb(source[i..]) == FromRfb(source)
    {
      FromStep(done, source, i);
      done := done + if source[i] == LF then [CR, LF] else [source[i]];
      assert |done + FromRfb(source[i + 1..])| == destLen;
      if source[i] == LF {
        destText[j] := CR;
        j := j + 1;
      }
      destText[j] := source[i];
      j := j + 1;
    }
    dest := destText[..j];
    NothingLeft(source);
  }

  method CountLf(source: string) returns (lfCount: nat)
    ensures lfCount == LfCount(source)
  {
    lfCount := 0;
    for i := 0 to |source|
      invariant lfCount == LfCount(source[..i])
    {
      assert source[..i + 1][..i] == source[..i];
      if source[i] == LF {
        lfCount := lfCount + 1;
      }
    }
    assert source[..|source|] == source;
  }
}
