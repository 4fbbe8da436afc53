/** `str::trim` on the UTF-8 bytes of a string: the longest run of
    white-space characters is cut from the front, then the longest run from
    the back. On valid UTF-8 the first byte of a character fixes its width and
    no white-space encoding starts with a continuation byte, so matching the
    encodings byte-wise finds exactly the white-space characters. */
module TextTrim {
  import opened Platform
  import opened Utf8

  /** Width of the white-space character at the front of `s`, or 0. */
  function WsWidth(s: seq<Byte>): (k: nat)
    ensures k <= 3 && k <= |s|
  {
    if |s| == 0 then 0
    else
      var k := WsLeadWidth(s[0]);
      if 0 < k <= |s| && IsWsChar(s[..k]) then k else 0
  }

  /** Width of the white-space character at the back of `s`, or 0. The
      candidate is the only one a white-space encoding could end there: one
      byte below 0x80, or a two- or three-byte encoding whose lead byte sits
      two or three bytes from the end. */
  function WsWidthAtEnd(s: seq<Byte>): (k: nat)
    ensures k <= 3 && k <= |s|
  {
    var k :=
      if |s| >= 1 && s[|s| - 1] < 0x80 then 1
      else if |s| >= 2 && s[|s| - 2] == 0xC2 then 2
      else if |s| >= 3 && 0xE1 <= s[|s| - 3] <= 0xE3 then 3
      else 0;
    if k > 0 && IsWsChar(s[|s| - k..]) then k else 0
  }

  predicate StartsWithWs(s: seq<Byte>) {
    WsWidth(s) > 0
  }

  predicate EndsWithWs(s: seq<Byte>) {
    WsWidthAtEnd(s) > 0
  }

  /** `w` is a concatenation of white-space characters. */
  predicate WsRun(w: seq<Byte>)
    decreases |w|
  {
    |w| == 0 || (WsWidth(w) > 0 && WsRun(w[WsWidth(w)..]))
  }

  /** `s` without its leading white-space characters: a suffix of `s`. */
  function TrimStart(s: seq<Byte>): (r: seq<Byte>)
    ensures |r| <= |s|
    decreases |s|
  {
    var k := WsWidth(s);
    if k == 0 then s else TrimStart(s[k..])
  }

  /** `s` without its trailing white-space characters: a prefix of `s`. */
  function TrimEnd(s: seq<Byte>): (r: seq<Byte>)
    ensures |r| <= |s|
    decreases |s|
  {
    var k := WsWidthAtEnd(s);
    if k == 0 then s else TrimEnd(s[..|s| - k])
  }

  /** `TrimStart(s)` is the suffix of `s` of its length. */
  lemma {:induction false} TrimStartIsSuffix(s: seq<Byte>)
    ensures TrimStart(s) == s[|s| - |TrimStart(s)|..]
    decreases |s|
  {
    var k := WsWidth(s);
    if k > 0 {
      TrimStartIsSuffix(s[k..]);
      assert s[k..][|s| - k - |TrimStart(s[k..])|..] == s[|s| - |TrimStart(s)|..];
    }
  }

  /** `TrimEnd(s)` is the prefix of `s` of its length. */
  lemma {:induction false} TrimEndIsPrefix(s: seq<Byte>)
    ensures TrimEnd(s) == s[..|TrimEnd(s)|]
    decreases |s|
  {
    var k := WsWidthAtEnd(s);
    if k > 0 {
      TrimEndIsPrefix(s[..|s| - k]);
      assert s[..|s| - k][..|TrimEnd(s)|] == s[..|TrimEnd(s)|];
    }
  }

  /** `str::trim`. */
  function Trim(s: seq<Byte>): seq<Byte> {
    TrimEnd(TrimStart(s))
  }

  /** The removed front is white space and what remains does not start with it. */
  lemma {:induction false} TrimStartSpec(s: seq<Byte>)
    ensures WsRun(s[..|s| - |TrimStart(s)|])
    ensures !StartsWithWs(TrimStart(s))
    decreases |s|
  {
    var k := WsWidth(s);
    if k == 0 {
      assert TrimStart(s) == s;
      assert s[..0] == [];
    } else {
      var t := s[k..];
      TrimStartSpec(t);
      assert TrimStart(s) == TrimStart(t);
      var n := |t| - |TrimStart(t)|;
      var w := s[..k + n];
      assert w[..k] == s[..k];
      WsWidthPrefix(s, w);
      assert w[k..] == t[..n];
      assert WsRun(w);
      assert w == s[..|s| - |TrimStart(s)|];
    }
  }

  /** The white-space character at the front depends only on its own bytes. */
  lemma WsWidthPrefix(s: seq<Byte>, t: seq<Byte>)
    requires WsWidth(s) > 0 && |t| >= WsWidth(s) && t[..WsWidth(s)] == s[..WsWidth(s)]
    ensures WsWidth(t) == WsWidth(s)
  {
    assert t[0] == t[..WsWidth(s)][0];
  }

  /** A single white-space character is recognised with its full width. */
  lemma WsWidthOfChar(c: seq<Byte>)
    requires IsWsChar(c)
    ensures WsWidth(c) == |c|
  {
    WsCharWidth(c);
    assert c[..|c|] == c;
  }

  /** Appending one white-space character to a run gives a run. */
  lemma {:induction false} WsRunSnoc(w: seq<Byte>, c: seq<Byte>)
    requires WsRun(w) && IsWsChar(c)
    ensures WsRun(w + c)
    decreases |w|
  {
    if |w| == 0 {
      assert w + c == c;
      WsWidthOfChar(c);
      assert c[|c|..] == [];
    } else {
      var k := WsWidth(w);
      assert k > 0 && WsRun(w[k..]);
      WsRunSnoc(w[k..], c);
      assert (w + c)[..k] == w[..k];
      WsWidthPrefix(w, w + c);
      assert (w + c)[k..] == w[k..] + c;
    }
  }

  /** The removed back is white space and what remains does not end with it. */
  lemma {:induction false} TrimEndSpec(s: seq<Byte>)
    ensures WsRun(s[|TrimEnd(s)|..])
    ensures !EndsWithWs(TrimEnd(s))
    decreases |s|
  {
    var k := WsWidthAtEnd(s);
    if k == 0 {
      assert TrimEnd(s) == s;
      assert s[|s|..] == [];
    } else {
      var t := s[..|s| - k];
      TrimEndSpec(t);
      var r := TrimEnd(t);
      assert TrimEnd(s) == r;
      var c := s[|s| - k..];
      assert IsWsChar(c);
      WsRunSnoc(t[|r|..], c);
      assert s[|r|..] == t[|r|..] + c;
    }
  }

  /** Cutting white space off the back cannot expose white space at the front. */
  lemma TrimEndKeepsStart(a: seq<Byte>)
    requires !StartsWithWs(a)
    ensures !StartsWithWs(TrimEnd(a))
  {
  }

  /** `Trim(s)` is what is left of `s` after cutting a white-space run from
      each end. */
  lemma TrimCutsWsRuns(s: seq<Byte>)
    ensures exists i, j :: 0 <= i <= j <= |s| && Trim(s) == s[i..j] && WsRun(s[..i]) && WsRun(s[j..])
  {
    var a := TrimStart(s);
    var r := TrimEnd(a);
    var i := |s| - |a|;
    var j := i + |r|;
    assert a == s[i..] by { TrimStartIsSuffix(s); }
    assert r == a[..|r|] by { TrimEndIsPrefix(a); }
    assert WsRun(s[..i]) by { TrimStartSpec(s); }
    assert WsRun(a[|r|..]) by { TrimEndSpec(a); }
    assert r == s[i..j];
    assert a[|r|..] == s[j..];
    assert Trim(s) == r;
  }

  /** The trimmed text neither starts nor ends with white space. */
  lemma TrimLeavesNoSurroundingWs(s: seq<Byte>)
    ensures !StartsWithWs(Trim(s))
    ensures !EndsWithWs(Trim(s))
  {
    TrimStartSpec(s);
    TrimEndSpec(TrimStart(s));
    TrimEndKeepsStart(TrimStart(s));
  }

  /** Trimming leaves a string unchanged exactly when it has no surrounding
      white space. */
  lemma TrimIdentity(s: seq<Byte>)
    ensures Trim(s) == s <==> !StartsWithWs(s) && !EndsWithWs(s)
  {
  }

  /** Trimming is idempotent. */
  lemma TrimIdempotent(s: seq<Byte>)
    ensures Trim(Trim(s)) == Trim(s)
  {
    TrimLeavesNoSurroundingWs(s);
    TrimIdentity(Trim(s));
  }

  /** Trimming a valid UTF-8 string yields valid UTF-8: only whole characters
      are removed. */
  lemma TrimKeepsUtf8(s: seq<Byte>)
    requires ValidUtf8(s)
    ensures ValidUtf8(Trim(s))
  {
    TrimStartKeepsUtf8(s);
    TrimEndKeepsUtf8(TrimStart(s));
  }

  lemma {:induction false} TrimStartKeepsUtf8(s: seq<Byte>)
    requires ValidUtf8(s)
    ensures ValidUtf8(TrimStart(s))
    decreases |s|
  {
    var k := WsWidth(s);
    if k > 0 {
      WsCharIsOneChar(s, k);
      TrimStartKeepsUtf8(s[k..]);
      assert TrimStart(s) == TrimStart(s[k..]);
    } else {
      assert TrimStart(s) == s;
    }
  }

  lemma {:induction false} TrimEndKeepsUtf8(s: seq<Byte>)
    requires ValidUtf8(s)
    ensures ValidUtf8(TrimEnd(s))
    decreases |s|
  {
    var k := WsWidthAtEnd(s);
    if k > 0 {
      var t := s[..|s| - k];
      WsCharIsOneChar(s[|s| - k..], k);
      assert s[|s| - k..][..k] == s[|s| - k..];
      ValidUtf8PrefixAtLead(s, |s| - k);
      TrimEndKeepsUtf8(t);
      assert TrimEnd(s) == TrimEnd(t);
    } else {
      assert TrimEnd(s) == s[..|s|] == s;
    }
  }

  /** Cutting valid UTF-8 just before a byte that is not a continuation byte
      leaves valid UTF-8. */
  lemma {:induction false} ValidUtf8PrefixAtLead(s: seq<Byte>, m: nat)
    requires ValidUtf8(s) && m < |s| && !IsContinuation(s[m])
    ensures ValidUtf8(s[..m])
    decreases |s|
  {
    if m > 0 {
      var k := CharWidth(s);
      CharWidthContinuations(s);
      assert k <= m;
      CharWidthPrefix(s, s[..m]);
      assert s[..m][k..] == s[k..][..m - k];
      if m - k > 0 {
        ValidUtf8PrefixAtLead(s[k..], m - k);
      }
    }
  }

  /** The bytes after the first of a well-formed character are continuations. */
  lemma CharWidthContinuations(s: seq<Byte>)
    requires CharWidth(s) > 0
    ensures forall i :: 0 < i < CharWidth(s) ==> IsContinuation(s[i])
  {
  }

  /** The width of the first character depends only on its own bytes. */
  lemma CharWidthPrefix(s: seq<Byte>, t: seq<Byte>)
    requires CharWidth(s) > 0 && |t| >= CharWidth(s) && t[..CharWidth(s)] == s[..CharWidth(s)]
    ensures CharWidth(t) == CharWidth(s)
  {
  }
}
