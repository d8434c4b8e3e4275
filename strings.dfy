/** String operations of the Python standard library that the sanitizer and the
    model selector rely on: substring search (`t in s`), `str.replace`,
    `str.strip`, `str.lower`, and the left-to-right, non-overlapping removal
    that `re.sub(pattern, '', s)` performs for a literal pattern. */
module Strings {

  /** `t in s` in Python: `t` occurs somewhere in `s` as a contiguous block. */
  predicate Contains(s: string, t: string)
    decreases |s|
  {
    t <= s || (s != [] && Contains(s[1..], t))
  }

  /** Nothing longer than `s` occurs in `s`. */
  lemma {:induction false} ContainsNoLonger(s: string, t: string)
    requires Contains(s, t)
    ensures |t| <= |s|
    decreases |s|
  {
    if !(t <= s) {
      ContainsNoLonger(s[1..], t);
    }
  }

  /** Wherever `t` occurs, every prefix of `t` occurs too. */
  lemma {:induction false} ContainsPrefixOf(s: string, t: string, u: string)
    requires u <= t && Contains(s, t)
    ensures Contains(s, u)
    decreases |s|
  {
    if !(t <= s) {
      ContainsPrefixOf(s[1..], t, u);
    }
  }

  /** An occurrence in a suffix is an occurrence in the whole string. */
  lemma {:induction false} ContainsInSuffix(s: string, i: nat, t: string)
    requires i <= |s|
    requires Contains(s[i..], t)
    ensures Contains(s, t)
    decreases i
  {
    if i > 0 {
      assert s[1..][i - 1..] == s[i..];
      ContainsInSuffix(s[1..], i - 1, t);
    }
  }

  /** An occurrence in a prefix is an occurrence in the whole string. */
  lemma {:induction false} ContainsInPrefix(s: string, j: nat, t: string)
    requires j <= |s|
    requires Contains(s[..j], t)
    ensures Contains(s, t)
    decreases j
  {
    if t <= s[..j] {
      assert s[..j] <= s;
    } else {
      assert s[..j][1..] == s[1..][..j - 1];
      ContainsInPrefix(s[1..], j - 1, t);
    }
  }

  /** An occurrence in any slice is an occurrence in the whole string. */
  lemma ContainsInSlice(s: string, i: nat, j: nat, t: string)
    requires i <= j <= |s|
    requires Contains(s[i..j], t)
    ensures Contains(s, t)
  {
    assert s[i..j] == s[i..][..j - i];
    ContainsInPrefix(s[i..], j - i, t);
    ContainsInSuffix(s, i, t);
  }

  /** A string that lacks one of the characters of `t` does not contain `t`. */
  lemma {:induction false} NotContainsWithout(s: string, t: string, c: char)
    requires c in t && c !in s
    ensures !Contains(s, t)
    decreases |s|
  {
    if s != [] {
      assert forall x :: x in s[1..] ==> x in s;
      NotContainsWithout(s[1..], t, c);
    }
  }

  /** A block starting with a character absent from `a` cannot begin inside
      `a`, so `a` may be skipped when looking for it. */
  lemma {:induction false} ContainsSkipping(a: string, b: string, t: string)
    requires t != [] && t[0] !in a
    ensures Contains(a + b, t) == Contains(b, t)
    decreases |a|
  {
    if a == [] {
      assert a + b == b;
    } else {
      assert (a + b)[0] == a[0] && (a + b)[1..] == a[1..] + b;
      ContainsSkipping(a[1..], b, t);
    }
  }

  /** The result of `re.sub(pat, '', s)` for a literal, non-empty `pat`: the
      string is scanned from the left, and at each position where `pat`
      starts that occurrence is dropped and the scan resumes after it;
      otherwise the character is kept. Occurrences never overlap. */
  function RemoveAll(s: string, pat: string): (r: string)
    requires pat != []
    ensures |r| <= |s|
    ensures !Contains(s, pat) ==> r == s
    decreases |s|
  {
    if s == [] then []
    else if pat <= s then RemoveAll(s[|pat|..], pat)
    else [s[0]] + RemoveAll(s[1..], pat)
  }

  /** Removal keeps only characters of the input. */
  lemma {:induction false} RemoveAllKeepsChars(s: string, pat: string)
    requires pat != []
    ensures forall c :: c in RemoveAll(s, pat) ==> c in s
    decreases |s|
  {
    if s != [] {
      var k := if pat <= s then |pat| else 1;
      RemoveAllKeepsChars(s[k..], pat);
      assert forall c :: c in s[k..] ==> c in s;
    }
  }

  /** Removing occurrences of a pattern that starts with a character absent
      from `a` leaves `a` as it is: `a` passes through untouched. */
  lemma {:induction false} RemoveAllAppend(a: string, b: string, pat: string)
    requires pat != [] && pat[0] !in a
    ensures RemoveAll(a + b, pat) == a + RemoveAll(b, pat)
    decreases |a|
  {
    if a != [] {
      assert (a + b)[1..] == a[1..] + b;
      RemoveAllAppend(a[1..], b, pat);
    } else {
      assert a + b == b;
    }
  }

  const Fence := "```"

  /** After the scan that removes every triple backtick, no triple backtick
      is left: a backtick that the scan keeps is followed by at most one more
      backtick. The second clause is that fact about the start of the result. */
  lemma {:induction false} RemoveFenceLeavesNone(s: string)
    ensures !Contains(RemoveAll(s, Fence), Fence)
    ensures !("``" <= s) ==> !("``" <= RemoveAll(s, Fence))
    decreases |s|
  {
    if s == [] {
    } else if Fence <= s {
      RemoveFenceLeavesNone(s[3..]);
    } else {
      var rest := RemoveAll(s[1..], Fence);
      assert RemoveAll(s, Fence) == [s[0]] + rest;
      RemoveFenceLeavesNone(s[1..]);
      if s[0] == '`' {
        assert !("``" <= s[1..]);
      }
      assert ([s[0]] + rest)[1..] == rest;
    }
  }

  /** `s.replace(from, to)` for single characters. */
  function ReplaceChar(s: string, from: char, to: char): (r: string)
    ensures |r| == |s|
    ensures forall i :: 0 <= i < |s| ==> r[i] == (if s[i] == from then to else s[i])
    ensures from != to ==> from !in r
    ensures from !in s ==> r == s
    ensures forall c :: c in r && c != to ==> c in s
  {
    seq(|s|, i requires 0 <= i < |s| => if s[i] == from then to else s[i])
  }

  /** Replacement works character by character, so it distributes over `+`. */
  lemma ReplaceCharAppend(a: string, b: string, from: char, to: char)
    ensures ReplaceChar(a + b, from, to) == ReplaceChar(a, from, to) + ReplaceChar(b, from, to)
  {
    var l, r := ReplaceChar(a + b, from, to), ReplaceChar(a, from, to) + ReplaceChar(b, from, to);
    assert |l| == |r|;
    forall i | 0 <= i < |l| ensures l[i] == r[i] {
      if i < |a| {
        assert (a + b)[i] == a[i];
      } else {
        assert (a + b)[i] == b[i - |a|];
      }
    }
  }

  /** Replacing characters neither of which is `c` cannot create an
      occurrence of a pattern made only of `c`. */
  lemma {:induction false} ReplaceCharKeepsAbsent(s: string, from: char, to: char, t: string)
    requires forall i :: 0 <= i < |t| ==> t[i] != from && t[i] != to
    requires !Contains(s, t)
    ensures !Contains(ReplaceChar(s, from, to), t)
    decreases |s|
  {
    var r := ReplaceChar(s, from, to);
    if s != [] {
      assert !Contains(s[1..], t);
      ReplaceCharKeepsAbsent(s[1..], from, to, t);
      assert r[1..] == ReplaceChar(s[1..], from, to);
    }
  }

  /** `s.replace(c, '')`: every `c` deleted, every other character kept in order. */
  function DeleteChar(s: string, c: char): (r: string)
    ensures c !in r
    ensures c !in s ==> r == s
    decreases |s|
  {
    if s == [] then []
    else
      var rest := DeleteChar(s[1..], c);
      if s[0] == c then rest else [s[0]] + rest
  }

  /** Deletion keeps every other character as often as it occurs. */
  lemma {:induction false} DeleteCharKeepsOthers(s: string, c: char)
    ensures forall x :: x != c ==> multiset(DeleteChar(s, c))[x] == multiset(s)[x]
    decreases |s|
  {
    if s != [] {
      DeleteCharKeepsOthers(s[1..], c);
      assert s == [s[0]] + s[1..];
    }
  }

  /** Deletion works character by character, so it distributes over `+`
      and keeps the remaining characters in their order. */
  lemma {:induction false} DeleteCharAppend(a: string, b: string, c: char)
    ensures DeleteChar(a + b, c) == DeleteChar(a, c) + DeleteChar(b, c)
    decreases |a|
  {
    if a == [] {
      assert a + b == b;
    } else {
      assert (a + b)[0] == a[0] && (a + b)[1..] == a[1..] + b;
      DeleteCharAppend(a[1..], b, c);
    }
  }

  /** Characters for which Python's `str.isspace()` holds: the ASCII
      control whitespace 0x09-0x0D and 0x1C-0x1F, the space, NEL, NBSP, and the
      Unicode space separators and line/paragraph separators. */
  predicate IsSpace(c: char)
  {
    ('\U{9}' <= c <= '\U{D}') || ('\U{1C}' <= c <= ' ') ||
    c == '\U{85}' || c == '\U{A0}' || c == '\U{1680}' ||
    ('\U{2000}' <= c <= '\U{200A}') || c == '\U{2028}' || c == '\U{2029}' ||
    c == '\U{202F}' || c == '\U{205F}' || c == '\U{3000}'
  }

  /** `s.lstrip()`: the longest suffix that does not start with whitespace. */
  function TrimStart(s: string): (r: string)
    ensures |r| <= |s| && r == s[|s| - |r|..]
    ensures r == [] || !IsSpace(r[0])
    decreases |s|
  {
    if s != [] && IsSpace(s[0]) then TrimStart(s[1..]) else s
  }

  /** `lstrip()` drops only whitespace, so what it keeps is the longest
      such suffix. */
  lemma {:induction false} TrimStartDropsSpace(s: string)
    ensures forall i :: 0 <= i < |s| - |TrimStart(s)| ==> IsSpace(s[i])
    decreases |s|
  {
    if s != [] && IsSpace(s[0]) {
      TrimStartDropsSpace(s[1..]);
      assert forall i :: 1 <= i < |s| ==> s[i] == s[1..][i - 1];
    }
  }

  /** `s.rstrip()`: the longest prefix that does not end in whitespace. */
  function TrimEnd(s: string): (r: string)
    ensures |r| <= |s| && r == s[..|r|]
    ensures r == [] || !IsSpace(r[|r| - 1])
    decreases |s|
  {
    if s != [] && IsSpace(s[|s| - 1]) then TrimEnd(s[..|s| - 1]) else s
  }

  /** `rstrip()` drops only whitespace, so what it keeps is the longest
      such prefix. */
  lemma {:induction false} TrimEndDropsSpace(s: string)
    ensures forall i :: |TrimEnd(s)| <= i < |s| ==> IsSpace(s[i])
    decreases |s|
  {
    if s != [] && IsSpace(s[|s| - 1]) {
      TrimEndDropsSpace(s[..|s| - 1]);
    }
  }

  /** `s.strip()`: `s` without its leading and trailing whitespace. */
  function Strip(s: string): (r: string)
    ensures exists i, j :: 0 <= i <= j <= |s| && r == s[i..j]
    ensures r == [] || (!IsSpace(r[0]) && !IsSpace(r[|r| - 1]))
  {
    var t := TrimStart(s);
    var r := TrimEnd(t);
    assert r == [] || r[0] == t[0];
    SliceOfSuffix(s, |s| - |t|, |r|);
    r
  }

  /** A prefix of a suffix is a slice. */
  lemma SliceOfSuffix(s: string, i: nat, k: nat)
    requires i + k <= |s|
    ensures exists i', j' :: 0 <= i' <= j' <= |s| && s[i..][..k] == s[i'..j']
  {
    assert s[i..][..k] == s[i..i + k];
  }

  /** Stripping keeps only characters of the input. */
  lemma StripKeepsChars(s: string)
    ensures forall c :: c in Strip(s) ==> c in s
  {
    var r := Strip(s);
    var i, j :| 0 <= i <= j <= |s| && r == s[i..j];
    forall c | c in r ensures c in s {
      assert c in s[i..];
    }
  }

  /** A string with no whitespace at either end is `strip()`'s fixed point. */
  lemma StripTrimmed(s: string)
    requires s == [] || (!IsSpace(s[0]) && !IsSpace(s[|s| - 1]))
    ensures Strip(s) == s
  {
    assert TrimStart(s) == s;
  }

  /** Leading whitespace makes no difference to `lstrip()`. */
  lemma {:induction false} TrimStartSkipsSpace(pre: string, rest: string)
    requires forall i :: 0 <= i < |pre| ==> IsSpace(pre[i])
    ensures TrimStart(pre + rest) == TrimStart(rest)
    decreases |pre|
  {
    if pre == [] {
      assert pre + rest == rest;
    } else {
      assert (pre + rest)[0] == pre[0] && (pre + rest)[1..] == pre[1..] + rest;
      TrimStartSkipsSpace(pre[1..], rest);
    }
  }

  /** Trailing whitespace makes no difference to `rstrip()`. */
  lemma {:induction false} TrimEndSkipsSpace(rest: string, post: string)
    requires forall i :: 0 <= i < |post| ==> IsSpace(post[i])
    ensures TrimEnd(rest + post) == TrimEnd(rest)
    decreases |post|
  {
    if post == [] {
      assert rest + post == rest;
    } else {
      var s := rest + post;
      assert s[|s| - 1] == post[|post| - 1];
      assert s[..|s| - 1] == rest + post[..|post| - 1];
      TrimEndSkipsSpace(rest, post[..|post| - 1]);
    }
  }

  /** `strip()` removes whitespace around a text that has none at its ends,
      and only that. */
  lemma StripSurroundingSpace(pre: string, s: string, post: string)
    requires forall i :: 0 <= i < |pre| ==> IsSpace(pre[i])
    requires forall i :: 0 <= i < |post| ==> IsSpace(post[i])
    requires s == [] || (!IsSpace(s[0]) && !IsSpace(s[|s| - 1]))
    ensures Strip(pre + s + post) == s
  {
    assert pre + s + post == pre + (s + post);
    TrimStartSkipsSpace(pre, s + post);
    if s == [] {
      assert s + post == post;
      TrimEndSkipsSpace([], TrimStart(post));
      assert [] + TrimStart(post) == TrimStart(post);
    } else {
      assert TrimStart(s + post) == s + post;
      TrimEndSkipsSpace(s, post);
    }
  }

  /** ASCII `A`-`Z` to `a`-`z`; every other character is left as it is. */
  function LowerChar(c: char): (r: char)
    ensures 'A' <= c <= 'Z' ==> 'a' <= r <= 'z' && r as int - c as int == 32
    ensures !('A' <= c <= 'Z') ==> r == c
  {
    if 'A' <= c <= 'Z' then (c as int - 'A' as int + 'a' as int) as char else c
  }

  /** `s.lower()`, as far as the question "does it contain `flash`" can tell:
      no character outside ASCII lowercases to a string holding any of the
      letters f, l, a, s, h, so lowering the ASCII capitals is all that matters. */
  function Lower(s: string): (r: string)
    ensures |r| == |s|
    ensures forall i :: 0 <= i < |s| ==> r[i] == LowerChar(s[i])
  {
    seq(|s|, i requires 0 <= i < |s| => LowerChar(s[i]))
  }

  /** Lowering leaves no ASCII capital behind, so a second `lower()`
      changes nothing. */
  lemma LowerIdempotent(s: string)
    ensures forall i :: 0 <= i < |s| ==> !('A' <= Lower(s)[i] <= 'Z')
    ensures Lower(Lower(s)) == Lower(s)
  {
    var low := Lower(s);
    assert forall i :: 0 <= i < |s| ==> LowerChar(low[i]) == low[i];
  }
}
