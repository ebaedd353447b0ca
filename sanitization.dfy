/** `strip_tags` of the sanitisation helpers: delete every match of the
    pattern `<[^>]+>`, scanning left to right without overlap, then trim
    whitespace at both ends as Python's `str.strip()` does. */
module Sanitization {

  /** Python's `str.isspace` for a single character. */
  predicate IsSpace(c: char) {
    || ('\t' <= c <= '\r')
    || ('\U{1C}' <= c <= ' ')
    || c == '\U{85}' || c == '\U{A0}' || c == '\U{1680}'
    || ('\U{2000}' <= c <= '\U{200A}')
    || c == '\U{2028}' || c == '\U{2029}' || c == '\U{202F}' || c == '\U{205F}' || c == '\U{3000}'
  }

  /** Index of the first `c` in `s`, or `|s|` when `c` does not occur. */
  function FirstIndex(s: string, c: char): (i: nat)
    ensures i <= |s|
    ensures i < |s| ==> s[i] == c
    ensures forall k :: 0 <= k < i ==> s[k] != c
  {
    if |s| == 0 then 0
    else if s[0] == c then 0
    else 1 + FirstIndex(s[1..], c)
  }

  /** The pattern matches at the start of `s`: a `<`, at least one character
      other than `>`, then the first `>` after it. */
  predicate TagAtStart(s: string) {
    |s| > 0 && s[0] == '<' && 1 < FirstIndex(s, '>') < |s|
  }

  /** `TAG_RE.sub("", s)`. */
  function RemoveTags(s: string): (r: string)
    ensures |r| <= |s|
    ensures forall k :: 0 <= k < |r| ==> r[k] in s
    decreases |s|
  {
    if |s| == 0 then ""
    else if TagAtStart(s) then
      var rest := s[FirstIndex(s, '>') + 1..];
      assert forall c :: c in rest ==> c in s;
      RemoveTags(rest)
    else
      assert forall c :: c in s[1..] ==> c in s;
      [s[0]] + RemoveTags(s[1..])
  }

  function TrimStart(s: string): (r: string)
    ensures |r| <= |s| && r == s[|s| - |r|..]
    ensures r == "" || !IsSpace(r[0])
    ensures forall k :: 0 <= k < |s| - |r| ==> IsSpace(s[k])
  {
    if |s| > 0 && IsSpace(s[0]) then TrimStart(s[1..]) else s
  }

  function TrimEnd(s: string): (r: string)
    ensures |r| <= |s| && r == s[..|r|]
    ensures r == "" || !IsSpace(r[|r| - 1])
    ensures forall k :: |r| <= k < |s| ==> IsSpace(s[k])
  {
    if |s| > 0 && IsSpace(s[|s| - 1]) then TrimEnd(s[..|s| - 1]) else s
  }

  /** `r` is the slice of `s` at `i`, and only whitespace lies around it. */
  predicate SpaceAround(s: string, i: nat, r: string) {
    i + |r| <= |s| && r == s[i..i + |r|] &&
    (forall k :: 0 <= k < i ==> IsSpace(s[k])) &&
    (forall k :: i + |r| <= k < |s| ==> IsSpace(s[k]))
  }

  /** `str.strip()`: what is left of `s` after removing all leading and trailing whitespace. */
  function Strip(s: string): (r: string)
    ensures SpaceAround(s, |s| - |TrimStart(s)|, r)
    ensures r == "" || (!IsSpace(r[0]) && !IsSpace(r[|r| - 1]))
  {
    StripSpaceAround(s);
    TrimEnd(TrimStart(s))
  }

  lemma StripSpaceAround(s: string)
    ensures SpaceAround(s, |s| - |TrimStart(s)|, TrimEnd(TrimStart(s)))
  {
    var t := TrimStart(s);
    var w := TrimEnd(t);
    SpaceAroundSuffix(s, |s| - |t|, t, w);
  }

  /** Only whitespace lies around `w` in `t`, and `t` is a suffix of `s` after whitespace. */
  lemma SpaceAroundSuffix(s: string, i: nat, t: string, w: string)
    requires i <= |s| && t == s[i..] && (forall k :: 0 <= k < i ==> IsSpace(s[k]))
    requires |w| <= |t| && w == t[..|w|] && (forall k :: |w| <= k < |t| ==> IsSpace(t[k]))
    ensures SpaceAround(s, i, w)
  {
    assert w == s[i..i + |w|];
    forall k | i + |w| <= k < |s|
      ensures IsSpace(s[k])
    {
      assert s[k] == t[k - i];
    }
  }

  /** `strip_tags(text)`. */
  function StripTags(text: string): (r: string)
    ensures text == "" ==> r == ""
    ensures text != "" ==> SpaceAround(RemoveTags(text), |RemoveTags(text)| - |TrimStart(RemoveTags(text))|, r)
    ensures r == "" || (!IsSpace(r[0]) && !IsSpace(r[|r| - 1]))
  {
    if |text| == 0 then "" else Strip(RemoveTags(text))
  }

  // ---------------------------------------------------------------------
  // Tag freedom
  // ---------------------------------------------------------------------

  /** `t` is one whole match of `<[^>]+>`. */
  predicate IsTag(t: string) {
    |t| >= 3 && t[0] == '<' && t[|t| - 1] == '>' && forall k :: 1 <= k < |t| - 1 ==> t[k] != '>'
  }

  /** No substring of `s` matches the pattern. */
  predicate TagFree(s: string) {
    forall i, j :: 0 <= i < j <= |s| ==> !IsTag(s[i..j])
  }

  /** Every `<` that has some `>` after it is directly followed by `>`. */
  predicate NoOpenTag(s: string) {
    forall i, k :: 0 <= i < k < |s| && s[i] == '<' && s[k] == '>' ==> s[i + 1] == '>'
  }

  lemma NoOpenTagIsTagFree(s: string)
    requires NoOpenTag(s)
    ensures TagFree(s)
  {
    forall i, j | 0 <= i < j <= |s| ensures !IsTag(s[i..j]) {
      var t := s[i..j];
      if |t| >= 3 && t[0] == '<' && t[|t| - 1] == '>' {
        assert s[i] == '<' && s[j - 1] == '>';
        assert t[1] == s[i + 1] == '>';
      }
    }
  }

  lemma NoOpenTagSlice(s: string, a: int, b: int)
    requires NoOpenTag(s) && 0 <= a <= b <= |s|
    ensures NoOpenTag(s[a..b])
  {
    var t := s[a..b];
    forall i, k | 0 <= i < k < |t| && t[i] == '<' && t[k] == '>' ensures t[i + 1] == '>' {
      assert s[a + i] == '<' && s[a + k] == '>';
    }
  }

  lemma NoOpenTagCons(c: char, t: string)
    requires NoOpenTag(t)
    requires c == '<' ==> (|t| > 0 && t[0] == '>') || (forall k :: 0 <= k < |t| ==> t[k] != '>')
    ensures NoOpenTag([c] + t)
  {
    var s := [c] + t;
    forall i, k | 0 <= i < k < |s| && s[i] == '<' && s[k] == '>' ensures s[i + 1] == '>' {
      if i > 0 {
        assert t[i - 1] == '<' && t[k - 1] == '>';
      } else {
        assert t[k - 1] == '>';
      }
    }
  }

  /** What the substitution leaves contains no match of the pattern. */
  lemma {:induction false} RemoveTagsNoOpenTag(s: string)
    ensures NoOpenTag(RemoveTags(s))
    decreases |s|
  {
    if |s| == 0 {
    } else if TagAtStart(s) {
      RemoveTagsNoOpenTag(s[FirstIndex(s, '>') + 1..]);
    } else {
      var t := RemoveTags(s[1..]);
      RemoveTagsNoOpenTag(s[1..]);
      if s[0] == '<' {
        if |s| > 1 && s[1] == '>' {
          assert !TagAtStart(s[1..]);
          assert t == [s[1]] + RemoveTags(s[2..]) by {
            assert s[1..][1..] == s[2..];
          }
        } else {
          assert FirstIndex(s, '>') == |s|;
          forall k | 0 <= k < |t| ensures t[k] != '>' {
            assert t[k] in s[1..];
          }
        }
      }
      NoOpenTagCons(s[0], t);
    }
  }

  /** On a string without a match the substitution changes nothing. */
  lemma {:induction false} RemoveTagsIdentity(s: string)
    requires NoOpenTag(s)
    ensures RemoveTags(s) == s
    decreases |s|
  {
    if |s| > 0 {
      assert !TagAtStart(s) by {
        if |s| > 1 && s[0] == '<' {
          assert s[1] == '>' || FirstIndex(s, '>') == |s|;
        }
      }
      NoOpenTagSlice(s, 1, |s|);
      RemoveTagsIdentity(s[1..]);
    }
  }

  lemma StripNoOpenTag(u: string)
    requires NoOpenTag(u)
    ensures NoOpenTag(Strip(u))
  {
    var v := TrimStart(u);
    NoOpenTagSlice(u, |u| - |v|, |u|);
    var w := TrimEnd(v);
    NoOpenTagSlice(v, 0, |w|);
    assert v[0..|w|] == w;
  }

  lemma StripTagsNoOpenTag(text: string)
    ensures NoOpenTag(StripTags(text))
  {
    if |text| > 0 {
      RemoveTagsNoOpenTag(text);
      StripNoOpenTag(RemoveTags(text));
    }
  }

  /** The output of `strip_tags` contains no substring `<`, one or more non-`>` characters, `>`. */
  lemma StripTagsTagFree(text: string)
    ensures TagFree(StripTags(text))
  {
    StripTagsNoOpenTag(text);
    NoOpenTagIsTagFree(StripTags(text));
  }

  // ---------------------------------------------------------------------
  // Characters are only deleted
  // ---------------------------------------------------------------------

  /** `r` is obtained from `s` by deleting characters. */
  predicate IsSubsequence(r: string, s: string)
    decreases |s|
  {
    |r| == 0 ||
    (|s| > 0 && ((r[0] == s[0] && IsSubsequence(r[1..], s[1..])) || IsSubsequence(r, s[1..])))
  }

  lemma {:induction false} SubsequenceOfSuffix(r: string, s: string, k: int)
    requires 0 <= k <= |s| && IsSubsequence(r, s[k..])
    ensures IsSubsequence(r, s)
    decreases k
  {
    if k > 0 {
      assert s[k - 1..][1..] == s[k..];
      SubsequenceOfSuffix(r, s, k - 1);
    }
  }

  lemma {:induction false} SubsequenceDropFirst(r: string, s: string)
    requires |r| > 0 && IsSubsequence(r, s)
    ensures IsSubsequence(r[1..], s)
    decreases |s|
  {
    if r[0] == s[0] && IsSubsequence(r[1..], s[1..]) {
      SubsequenceOfSuffix(r[1..], s, 1);
    } else {
      SubsequenceDropFirst(r, s[1..]);
      SubsequenceOfSuffix(r[1..], s, 1);
    }
  }

  lemma {:induction false} SubsequenceDropLast(r: string, s: string)
    requires |r| > 0 && IsSubsequence(r, s)
    ensures IsSubsequence(r[..|r| - 1], s)
    decreases |s|
  {
    var r' := r[..|r| - 1];
    if |r'| > 0 {
      if r[0] == s[0] && IsSubsequence(r[1..], s[1..]) {
        if |r| > 1 {
          SubsequenceDropLast(r[1..], s[1..]);
          assert r[1..][..|r| - 2] == r'[1..];
        }
      } else {
        SubsequenceDropLast(r, s[1..]);
      }
    }
  }

  lemma {:induction false} SubsequencePrefix(r: string, s: string, b: int)
    requires IsSubsequence(r, s) && 0 <= b <= |r|
    ensures IsSubsequence(r[..b], s)
    decreases |r| - b
  {
    if b < |r| {
      SubsequenceDropLast(r, s);
      assert r[..|r| - 1][..b] == r[..b];
      SubsequencePrefix(r[..|r| - 1], s, b);
    } else {
      assert r[..b] == r;
    }
  }

  lemma {:induction false} SubsequenceSuffix(r: string, s: string, a: int)
    requires IsSubsequence(r, s) && 0 <= a <= |r|
    ensures IsSubsequence(r[a..], s)
    decreases a
  {
    if a > 0 {
      SubsequenceSuffix(r, s, a - 1);
      SubsequenceDropFirst(r[a - 1..], s);
      assert r[a - 1..][1..] == r[a..];
    } else {
      assert r[a..] == r;
    }
  }

  lemma {:induction false} RemoveTagsSubsequence(s: string)
    ensures IsSubsequence(RemoveTags(s), s)
    decreases |s|
  {
    if |s| == 0 {
    } else if TagAtStart(s) {
      var k := FirstIndex(s, '>') + 1;
      RemoveTagsSubsequence(s[k..]);
      SubsequenceOfSuffix(RemoveTags(s), s, k);
    } else {
      RemoveTagsSubsequence(s[1..]);
      var r := RemoveTags(s);
      assert r[0] == s[0] && r[1..] == RemoveTags(s[1..]);
    }
  }

  /** Characters are only deleted, never added or reordered. */
  lemma StripTagsSubsequence(text: string)
    ensures IsSubsequence(StripTags(text), text)
  {
    if |text| > 0 {
      var u := RemoveTags(text);
      RemoveTagsSubsequence(text);
      var v := TrimStart(u);
      SubsequenceSuffix(u, text, |u| - |v|);
      assert u[|u| - |v|..] == v;
      var w := TrimEnd(v);
      SubsequencePrefix(v, text, |w|);
      assert v[..|w|] == w;
      assert StripTags(text) == w;
    }
  }

  // ---------------------------------------------------------------------
  // Plain text and idempotence
  // ---------------------------------------------------------------------

  /** A text without `<` is only trimmed. */
  lemma StripTagsPlainText(text: string)
    requires forall k :: 0 <= k < |text| ==> text[k] != '<'
    ensures StripTags(text) == Strip(text)
  {
    RemoveTagsIdentity(text);
  }

  lemma StripTrimmed(s: string)
    requires s == "" || (!IsSpace(s[0]) && !IsSpace(s[|s| - 1]))
    ensures Strip(s) == s
  {
  }

  /** Applying `strip_tags` twice gives the same result as applying it once. */
  lemma StripTagsIdempotent(text: string)
    ensures StripTags(StripTags(text)) == StripTags(text)
  {
    var r := StripTags(text);
    if |r| > 0 {
      StripTagsNoOpenTag(text);
      RemoveTagsIdentity(r);
      StripTrimmed(r);
    }
  }
}
