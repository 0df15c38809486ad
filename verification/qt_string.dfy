/** The handful of QString operations the desktop-entry reader relies on:
    `startsWith` (case-sensitive), `split` on a one-character separator
    (empty parts kept) and `trimmed` (whitespace as `QChar::isSpace`
    defines it). Strings are sequences of characters. */
module QtString {

  /** `QChar::isSpace`: tab, line feed, vertical tab, form feed, carriage
      return, space, NEL, no-break space and the Unicode space, line and
      paragraph separators. */
  predicate IsSpace(c: char) {
    || c == ' '
    || ('\t' <= c <= '\r')
    || c == '\U{85}'
    || c == '\U{A0}'
    || c == '\U{1680}'
    || ('\U{2000}' <= c <= '\U{200A}')
    || c == '\U{2028}'
    || c == '\U{2029}'
    || c == '\U{202F}'
    || c == '\U{205F}'
    || c == '\U{3000}'
  }

  /** `s.startsWith(prefix)`, case-sensitive. */
  predicate StartsWith(s: string, prefix: string) {
    |prefix| <= |s| && s[..|prefix|] == prefix
  }

  /** Position of the first occurrence of `c` in `s`. */
  function IndexOf(s: string, c: char): (i: nat)
    requires c in s
    ensures i < |s| && s[i] == c
    ensures c !in s[..i]
  {
    if s[0] == c then 0
    else
      assert c in s[1..] by {
        var k :| 0 <= k < |s| && s[k] == c;
        assert s[1..][k - 1] == c;
      }
      var j := IndexOf(s[1..], c);
      assert s[..j + 1] == [s[0]] + s[1..][..j];
      j + 1
  }

  /** `s.split(sep)` with empty parts kept: the pieces between consecutive
      separators, from left to right. */
  function Split(s: string, sep: char): (parts: seq<string>)
    ensures |parts| >= 1
    ensures |parts| > 1 <==> sep in s
    ensures forall i :: 0 <= i < |parts| ==> sep !in parts[i]
    decreases |s|
  {
    if sep !in s then [s]
    else
      var i := IndexOf(s, sep);
      [s[..i]] + Split(s[i + 1..], sep)
  }

  /** The inverse of `Split`: the parts glued back with the separator. */
  function Join(parts: seq<string>, sep: char): string
    requires |parts| >= 1
  {
    if |parts| == 1 then parts[0]
    else parts[0] + [sep] + Join(parts[1..], sep)
  }

  /** Splitting and joining again gives back the original string. */
  lemma {:induction false} JoinSplit(s: string, sep: char)
    ensures Join(Split(s, sep), sep) == s
    decreases |s|
  {
    if sep in s {
      var i := IndexOf(s, sep);
      var rest := Split(s[i + 1..], sep);
      assert Split(s, sep) == [s[..i]] + rest;
      assert (([s[..i]] + rest)[1..]) == rest;
      JoinSplit(s[i + 1..], sep);
      assert s == s[..i] + [sep] + s[i + 1..];
    }
  }

  /** The first separator of `a + [sep] + b` sits right after `a` when `a`
      holds none. */
  lemma IndexOfAfterPrefix(a: string, sep: char, b: string)
    requires sep !in a
    ensures IndexOf(a + [sep] + b, sep) == |a|
  {
    var s := a + [sep] + b;
    assert s[|a|] == sep;
    assert s[..|a|] == a;
  }

  /** Splitting `a + [sep] + b` where `a` holds no separator: `a` is the
      first part and the parts of `b` follow. */
  lemma SplitAfterFirst(a: string, sep: char, b: string)
    requires sep !in a
    ensures Split(a + [sep] + b, sep) == [a] + Split(b, sep)
  {
    var s := a + [sep] + b;
    IndexOfAfterPrefix(a, sep, b);
    assert s[..|a|] == a;
    assert s[|a| + 1..] == b;
  }

  /** The second part of a split is the text between the first and the
      second separator, or the end of the string. */
  lemma SecondPart(key: string, sep: char, raw: string, rest: string)
    requires sep !in key && sep !in raw
    requires rest == [] || rest[0] == sep
    ensures |Split(key + [sep] + raw + rest, sep)| > 1
    ensures Split(key + [sep] + raw + rest, sep)[1] == raw
  {
    var tail := raw + rest;
    assert key + [sep] + raw + rest == key + [sep] + tail;
    SplitAfterFirst(key, sep, tail);
    FirstPart(raw, sep, rest);
  }

  /** The first part of a split is the text before the first separator. */
  lemma FirstPart(raw: string, sep: char, rest: string)
    requires sep !in raw
    requires rest == [] || rest[0] == sep
    ensures Split(raw + rest, sep)[0] == raw
  {
    if rest == [] {
      assert raw + rest == raw;
    } else {
      assert raw + rest == raw + [sep] + rest[1..];
      SplitAfterFirst(raw, sep, rest[1..]);
    }
  }

  /** Joining separator-free parts and splitting again gives back the parts. */
  lemma {:induction false} SplitJoin(parts: seq<string>, sep: char)
    requires |parts| >= 1
    requires forall i :: 0 <= i < |parts| ==> sep !in parts[i]
    ensures Split(Join(parts, sep), sep) == parts
    decreases |parts|
  {
    if |parts| > 1 {
      var tail := parts[1..];
      assert forall i :: 0 <= i < |tail| ==> tail[i] == parts[i + 1];
      SplitAfterFirst(parts[0], sep, Join(tail, sep));
      SplitJoin(tail, sep);
      assert parts == [parts[0]] + tail;
    }
  }

  /** `s` with its leading whitespace removed. */
  function TrimStart(s: string): (r: string)
    ensures |r| <= |s| && r == s[|s| - |r|..]
    ensures forall k :: 0 <= k < |s| - |r| ==> IsSpace(s[k])
    ensures |r| > 0 ==> !IsSpace(r[0])
  {
    if |s| > 0 && IsSpace(s[0]) then TrimStart(s[1..]) else s
  }

  /** `s` with its trailing whitespace removed. */
  function TrimEnd(s: string): (r: string)
    ensures |r| <= |s| && r == s[..|r|]
    ensures forall k :: |r| <= k < |s| ==> IsSpace(s[k])
    ensures |r| > 0 ==> !IsSpace(r[|r| - 1])
  {
    if |s| > 0 && IsSpace(s[|s| - 1]) then TrimEnd(s[..|s| - 1]) else s
  }

  predicate AllSpace(s: string) {
    forall k :: 0 <= k < |s| ==> IsSpace(s[k])
  }

  /** `s.trimmed()`. */
  function Trimmed(s: string): (r: string)
    ensures |r| <= |s|
    ensures |r| > 0 ==> !IsSpace(r[0]) && !IsSpace(r[|r| - 1])
  {
    TrimEnd(TrimStart(s))
  }

  /** `TrimStart` removes a run of whitespace from the front. */
  lemma TrimStartCutsSpace(s: string)
    ensures AllSpace(s[..|s| - |TrimStart(s)|])
    ensures s == s[..|s| - |TrimStart(s)|] + TrimStart(s)
  {
    var pre := s[..|s| - |TrimStart(s)|];
    forall k | 0 <= k < |pre|
      ensures IsSpace(pre[k])
    {
      assert pre[k] == s[k];
    }
  }

  /** `TrimEnd` removes a run of whitespace from the back. */
  lemma TrimEndCutsSpace(t: string)
    ensures AllSpace(t[|TrimEnd(t)|..])
    ensures t == TrimEnd(t) + t[|TrimEnd(t)|..]
  {
    var post := t[|TrimEnd(t)|..];
    forall k | 0 <= k < |post|
      ensures IsSpace(post[k])
    {
      assert post[k] == t[|TrimEnd(t)| + k];
    }
  }

  /** The whitespace `trimmed()` cuts from the front of `s`. */
  function LeadingSpace(s: string): string {
    s[..|s| - |TrimStart(s)|]
  }

  /** The whitespace `trimmed()` cuts from the back of `s`. */
  function TrailingSpace(s: string): string {
    TrimStart(s)[|Trimmed(s)|..]
  }

  /** What `trimmed()` cuts off is whitespace only: `s` is whitespace, then
      the trimmed value, then whitespace. */
  lemma TrimmedCutsOnlySpace(s: string)
    ensures s == LeadingSpace(s) + Trimmed(s) + TrailingSpace(s)
    ensures AllSpace(LeadingSpace(s)) && AllSpace(TrailingSpace(s))
  {
    var t := TrimStart(s);
    var r := TrimEnd(t);
    assert Trimmed(s) == r;
    TrimStartCutsSpace(s);
    TrimEndCutsSpace(t);
    assert s == LeadingSpace(s) + t && t == r + TrailingSpace(s);
  }

  /** A string without leading or trailing whitespace is its own trim. */
  lemma TrimmedFixedPoint(s: string)
    requires |s| > 0 ==> !IsSpace(s[0]) && !IsSpace(s[|s| - 1])
    ensures Trimmed(s) == s
  {
    assert TrimStart(s) == s;
    assert TrimEnd(s) == s;
  }

  /** Trimming twice is trimming once. */
  lemma {:induction false} TrimmedIdempotent(s: string)
    ensures Trimmed(Trimmed(s)) == Trimmed(s)
  {
    TrimmedFixedPoint(Trimmed(s));
  }
}
