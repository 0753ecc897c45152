/** StringUtil: the blank test on a nullable string, with `String.trim` as Java defines it
    (every leading and trailing character at or below U+0020 is removed). */
module StringUtil {
  import opened Base

  /** A character that `String.trim` removes from either end. */
  predicate IsTrimmable(c: char) {
    c <= ' '
  }

  ghost predicate AllTrimmable(s: string) {
    forall k :: 0 <= k < |s| ==> IsTrimmable(s[k])
  }

  /** `s` without its leading trimmable characters. */
  function StripLeading(s: string): (r: string)
    ensures |r| <= |s| && r == s[|s| - |r|..]
    ensures AllTrimmable(s[..|s| - |r|])
    ensures r != [] ==> !IsTrimmable(r[0])
    decreases |s|
  {
    if s != [] && IsTrimmable(s[0]) then StripLeading(s[1..]) else s
  }

  /** `s` without its trailing trimmable characters. */
  function StripTrailing(s: string): (r: string)
    ensures |r| <= |s| && r == s[..|r|]
    ensures AllTrimmable(s[|r|..])
    ensures r != [] ==> !IsTrimmable(r[|r| - 1])
    decreases |s|
  {
    if s != [] && IsTrimmable(s[|s| - 1]) then StripTrailing(s[..|s| - 1]) else s
  }

  /** `String.trim`: the longest middle part of `s` that neither starts nor ends with a
      trimmable character; everything cut off on either side is trimmable. */
  function Trim(s: string): (r: string)
    ensures exists i, j :: 0 <= i <= j <= |s| && r == s[i..j] && AllTrimmable(s[..i]) && AllTrimmable(s[j..])
    ensures r != [] ==> !IsTrimmable(r[0]) && !IsTrimmable(r[|r| - 1])
  {
    var a := StripLeading(s);
    var r := StripTrailing(a);
    var i := |s| - |a|;
    assert r == s[i..i + |r|];
    assert s[i + |r|..] == a[|r|..];
    r
  }

  /** isNullOrBlank: null, or nothing left after trimming. */
  function IsNullOrBlank(str: Option<string>): (r: bool)
    ensures r <==> str.None? || AllTrimmable(str.value)
  {
    str.None? || Trim(str.value) == []
  }

  /** Surrounding a string with trimmable characters does not change whether it is blank. */
  lemma PaddingIsIgnored(prefix: string, s: string, suffix: string)
    requires AllTrimmable(prefix) && AllTrimmable(suffix)
    ensures IsNullOrBlank(Some(prefix + s + suffix)) == IsNullOrBlank(Some(s))
  {
    var t := prefix + s + suffix;
    forall k | 0 <= k < |s| ensures s[k] == t[|prefix| + k] {
    }
    if AllTrimmable(s) {
      forall k | 0 <= k < |t| ensures IsTrimmable(t[k]) {
        if k < |prefix| {
          assert t[k] == prefix[k];
        } else if k < |prefix| + |s| {
          assert t[k] == s[k - |prefix|];
        } else {
          assert t[k] == suffix[k - |prefix| - |s|];
        }
      }
    }
  }

  /** A string with any character above U+0020 is not blank. */
  lemma VisibleCharacterIsNotBlank(s: string, k: nat)
    requires k < |s| && s[k] > ' '
    ensures !IsNullOrBlank(Some(s))
  {
  }

  /** null and "" are blank. */
  lemma EmptyIsBlank()
    ensures IsNullOrBlank(None)
    ensures IsNullOrBlank(Some(""))
  {
  }

  /** A run of spaces, tabs and line breaks is blank. */
  lemma WhitespaceIsBlank()
    ensures IsNullOrBlank(Some(" \t\n\r "))
  {
    var s := " \t\n\r ";
    assert forall k :: 0 <= k < |s| ==> s[k] in {' ', '\t', '\n', '\r'};
  }

  /** "testing" is not blank. */
  lemma WordIsNotBlank()
    ensures !IsNullOrBlank(Some("testing"))
  {
    VisibleCharacterIsNotBlank("testing", 0);
  }
}
