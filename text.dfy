/**
 * String operations of the JavaScript standard library as the source uses them:
 * `indexOf`, `lastIndexOf`, `includes`, `endsWith`, `split` on one character,
 * `join`, and the global replacements `replaceAll("[]", "")` and `replaceAll(c, "")`.
 * Strings are `seq<char>`, whose elements are Unicode scalar values rather
 * than JavaScript's UTF-16 code units.
 */
module Text {

  /** `t` occurs in `s` starting at index `k`. */
  predicate OccursAt(s: string, t: string, k: int)
  {
    0 <= k && k + |t| <= |s| && s[k..k + |t|] == t
  }

  lemma AppendAssoc<T>(a: seq<T>, b: seq<T>, c: seq<T>)
    ensures (a + b) + c == a + (b + c)
  {
  }

  /** `s.indexOf(t, from)`: the first occurrence of `t` at or after `from`, or -1. */
  function IndexOfFrom(s: string, t: string, from: nat): (r: int)
    requires from <= |s|
    ensures r == -1 || (from <= r && OccursAt(s, t, r))
    ensures r == -1 ==> forall k :: from <= k <= |s| ==> !OccursAt(s, t, k)
    ensures r >= 0 ==> forall k :: from <= k < r ==> !OccursAt(s, t, k)
    decreases |s| - from
  {
    if from + |t| > |s| then -1
    else if s[from..from + |t|] == t then from
    else IndexOfFrom(s, t, from + 1)
  }

  /** `s.indexOf(t)`. */
  function IndexOf(s: string, t: string): int
  {
    IndexOfFrom(s, t, 0)
  }

  /** Searching a suffix `s[pos..]` is searching `s` from `pos`, with positions shifted by `pos`. */
  lemma {:induction false} IndexOfSuffix(s: string, t: string, pos: nat, m: nat)
    requires pos + m <= |s|
    ensures var k := IndexOfFrom(s, t, pos + m);
      IndexOfFrom(s[pos..], t, m) == if k == -1 then -1 else k - pos
    decreases |s| - pos - m
  {
    if m + |t| <= |s| - pos {
      assert s[pos..][m..m + |t|] == s[pos + m..pos + m + |t|];
      if s[pos + m..pos + m + |t|] != t {
        IndexOfSuffix(s, t, pos, m + 1);
      }
    }
  }

  /** `s.includes(t)`. */
  predicate Contains(s: string, t: string)
  {
    IndexOf(s, t) >= 0
  }

  /** The last occurrence of `t` in `s` at an index no greater than `k`, or -1. */
  function LastIndexFrom(s: string, t: string, k: int): (r: int)
    ensures r == -1 || (r <= k && OccursAt(s, t, r))
    ensures forall j :: r < j <= k ==> !OccursAt(s, t, j)
    decreases k + 1
  {
    if k < 0 then -1
    else if OccursAt(s, t, k) then k
    else LastIndexFrom(s, t, k - 1)
  }

  /** `s.lastIndexOf(t)`. */
  function LastIndexOf(s: string, t: string): int
  {
    LastIndexFrom(s, t, |s|)
  }

  /** A string holding an array marker `[]` has a last `[`. */
  lemma MarkerHasOpenBracket(s: string)
    requires Contains(s, "[]")
    ensures 0 <= LastIndexOf(s, "[") < |s|
  {
    var k := IndexOf(s, "[]");
    assert OccursAt(s, "[]", k);
    assert s[k..k + 1] == s[k..k + 2][..1];
    assert OccursAt(s, "[", k);
  }

  /** `s.endsWith(t)`. */
  predicate EndsWith(s: string, t: string)
  {
    |t| <= |s| && s[|s| - |t|..] == t
  }

  /** `s.substring(k)` for the index that `lastIndexOf(".") + 1` gives: the text after the last dot, or all of `s`. */
  function AfterLastDot(s: string): (r: string)
    ensures '.' !in r
    ensures EndsWith(s, r)
    ensures '.' !in s ==> r == s
  {
    LastDot(s);
    s[LastIndexOf(s, ".") + 1..]
  }

  /** What follows the last dot has no dot and ends `s`; it is all of `s` when `s` has no dot. */
  lemma LastDot(s: string)
    ensures -1 <= LastIndexOf(s, ".") < |s|
    ensures var r := s[LastIndexOf(s, ".") + 1..];
      '.' !in r && EndsWith(s, r) && ('.' !in s ==> r == s)
  {
    var k := LastIndexOf(s, ".");
    if k != -1 {
      CharAt(s, '.', k);
    }
    NoCharAfter(s, '.', k);
    assert s[|s| - |s[k + 1..]|..] == s[k + 1..];
  }

  lemma CharAt(s: string, c: char, k: int)
    requires OccursAt(s, [c], k)
    ensures k < |s| && s[k] == c && c in s
  {
    assert s[k..k + 1] == [c];
    assert s[k] in s;
  }

  lemma NoCharAfter(s: string, c: char, k: int)
    requires -1 <= k < |s| && forall j :: k < j <= |s| ==> !OccursAt(s, [c], j)
    ensures c !in s[k + 1..]
  {
    var r := s[k + 1..];
    forall i | 0 <= i < |r| ensures r[i] != c {
      assert r[i] == s[k + 1 + i];
      if r[i] == c {
        assert s[k + 1 + i..k + 2 + i] == [c];
        assert OccursAt(s, [c], k + 1 + i);
      }
    }
  }

  /** `s.replaceAll("[]", "")`: every array marker `[]` is removed, scanning left to right. */
  function StripArrays(s: string): (r: string)
    ensures |r| <= |s|
  {
    if |s| < 2 then s
    else if s[0] == '[' && s[1] == ']' then StripArrays(s[2..])
    else [s[0]] + StripArrays(s[1..])
  }

  /** Appending an array marker to a name does not change the name once markers are stripped. */
  lemma {:induction false} StripArraysSuffix(x: string)
    ensures StripArrays(x + "[]") == StripArrays(x)
  {
    if |x| == 0 {
    } else if |x| == 1 {
      assert x + "[]" == [x[0]] + "[]";
      assert (x + "[]")[1..] == "[]";
    } else if x[0] == '[' && x[1] == ']' {
      assert (x + "[]")[2..] == x[2..] + "[]";
      StripArraysSuffix(x[2..]);
    } else {
      assert (x + "[]")[1..] == x[1..] + "[]";
      StripArraysSuffix(x[1..]);
    }
  }

  /** A name without any `[` is left as it is. */
  lemma {:induction false} StripArraysPlain(s: string)
    requires '[' !in s
    ensures StripArrays(s) == s
  {
    if |s| >= 2 {
      assert s[0] != '[';
      assert '[' !in s[1..];
      StripArraysPlain(s[1..]);
    }
  }

  /** `s.replaceAll(c, "")` for a one-character pattern. */
  function RemoveChar(s: string, c: char): (r: string)
    ensures c !in r
    ensures |r| <= |s|
  {
    if s == [] then [] else (if s[0] == c then [] else [s[0]]) + RemoveChar(s[1..], c)
  }

  /** Removing `c` keeps every other character that occurs, and adds none. */
  lemma {:induction false} RemoveCharKeeps(s: string, c: char)
    ensures forall x :: x != c ==> (x in RemoveChar(s, c) <==> x in s)
  {
    if s != [] {
      RemoveCharKeeps(s[1..], c);
      assert s == [s[0]] + s[1..];
    }
  }

  /** `parts.join(sep)`. */
  function Join(parts: seq<string>, sep: string): string
  {
    if |parts| == 0 then ""
    else if |parts| == 1 then parts[0]
    else parts[0] + sep + Join(parts[1..], sep)
  }

  /** `s.split(c)` for a one-character separator: the pieces between separators, never an empty list. */
  function Split(s: string, c: char): (r: seq<string>)
    ensures |r| >= 1
  {
    if s == [] then [""]
    else
      var rest := Split(s[1..], c);
      if s[0] == c then [""] + rest
      else [[s[0]] + rest[0]] + rest[1..]
  }

  /** No piece holds the separator, and there is one piece exactly when the string has no separator. */
  lemma {:induction false} SplitSeparates(s: string, c: char)
    ensures forall p :: p in Split(s, c) ==> c !in p
    ensures |Split(s, c)| == 1 <==> c !in s
  {
    if s != [] {
      SplitSeparates(s[1..], c);
      var rest := Split(s[1..], c);
      assert s == [s[0]] + s[1..];
      if s[0] != c {
        assert rest[0] in rest;
        assert forall p :: p in rest[1..] ==> p in rest;
      }
    }
  }

  /** Splitting and joining on the same character gives back the string. */
  lemma {:induction false} SplitJoin(s: string, c: char)
    ensures Join(Split(s, c), [c]) == s
  {
    if s != [] {
      var rest := Split(s[1..], c);
      SplitJoin(s[1..], c);
      if s[0] == c {
        assert Split(s, c) == [""] + rest;
        assert Join([""] + rest, [c]) == "" + [c] + Join(rest, [c]);
      } else {
        var r := [[s[0]] + rest[0]] + rest[1..];
        assert Split(s, c) == r;
        if |rest| == 1 {
          assert r == [[s[0]] + rest[0]];
        } else {
          assert r[1..] == rest[1..];
          assert Join(rest, [c]) == rest[0] + [c] + Join(rest[1..], [c]);
        }
      }
    }
  }

  /** A string without the separator splits into itself. */
  lemma SplitAbsent(s: string, c: char)
    requires c !in s
    ensures Split(s, c) == [s]
  {
    SplitJoin(s, c);
  }

  /** Splitting at the first separator: the text before it, then the pieces of the rest. */
  lemma {:induction false} SplitPrefix(a: string, b: string, c: char)
    requires c !in a
    ensures Split(a + [c] + b, c) == [a] + Split(b, c)
  {
    if a == [] {
      assert a + [c] + b == [c] + b;
      assert ([c] + b)[1..] == b;
    } else {
      assert (a + [c] + b)[1..] == a[1..] + [c] + b;
      SplitPrefix(a[1..], b, c);
      assert [a[0]] + a[1..] == a;
    }
  }

  /** Two separator-free pieces around one separator split back into the two. */
  lemma SplitAround(a: string, b: string, c: char)
    requires c !in a && c !in b
    ensures Split(a + [c] + b, c) == [a, b]
  {
    SplitPrefix(a, b, c);
    SplitAbsent(b, c);
  }

  /** Joining pieces without the separator and splitting again gives the pieces back. */
  lemma {:induction false} SplitJoined(parts: seq<string>, c: char)
    requires |parts| >= 1 && forall p :: p in parts ==> c !in p
    ensures Split(Join(parts, [c]), c) == parts
  {
    if |parts| == 1 {
      SplitAbsent(parts[0], c);
    } else {
      assert parts[0] in parts;
      assert forall p :: p in parts[1..] ==> p in parts;
      SplitJoined(parts[1..], c);
      SplitPrefix(parts[0], Join(parts[1..], [c]), c);
      assert parts == [parts[0]] + parts[1..];
    }
  }

  /** Every character of a piece occurs in the split string. */
  lemma {:induction false} SplitPieces(s: string, c: char)
    ensures forall p, x :: p in Split(s, c) && x in p ==> x in s
  {
    if s != [] {
      SplitPieces(s[1..], c);
      var rest := Split(s[1..], c);
      assert forall x :: x in rest[0] ==> x in s[1..];
      assert forall p :: p in rest[1..] ==> p in rest;
    }
  }

  /** A character absent from the pieces and the separator is absent from the join. */
  lemma {:induction false} JoinAvoids(parts: seq<string>, sep: string, c: char)
    requires c !in sep && forall p :: p in parts ==> c !in p
    ensures c !in Join(parts, sep)
  {
    if |parts| > 1 {
      assert parts[0] in parts;
      assert forall p :: p in parts[1..] ==> p in parts;
      JoinAvoids(parts[1..], sep, c);
    } else if |parts| == 1 {
      assert parts[0] in parts;
    }
  }

  lemma {:induction false} RemoveCharAppend(a: string, b: string, c: char)
    ensures RemoveChar(a + b, c) == RemoveChar(a, c) + RemoveChar(b, c)
  {
    if a == [] {
      assert a + b == b;
    } else {
      assert (a + b)[1..] == a[1..] + b;
      RemoveCharAppend(a[1..], b, c);
      AppendAssoc(if a[0] == c then [] else [a[0]], RemoveChar(a[1..], c), RemoveChar(b, c));
    }
  }

  lemma {:induction false} RemoveCharAbsent(s: string, c: char)
    requires c !in s
    ensures RemoveChar(s, c) == s
  {
    if s != [] {
      RemoveCharAbsent(s[1..], c);
      assert [s[0]] + s[1..] == s;
    }
  }

  /** ASCII upper-case letter test (`char.charCodeAt(0)` between 65 and 90). */
  predicate IsUpper(ch: char)
  {
    'A' <= ch <= 'Z'
  }

  /** `toLowerCase` on one character, for the ASCII letters. */
  function Lower(ch: char): (r: char)
    ensures !IsUpper(r)
    ensures !IsUpper(ch) ==> r == ch
  {
    if IsUpper(ch) then (ch as int + 32) as char else ch
  }

  /** `toLowerCase` on a string, for the ASCII letters. */
  function LowerAll(s: string): (r: string)
    ensures |r| == |s|
    ensures forall i :: 0 <= i < |r| ==> r[i] == Lower(s[i])
  {
    if s == [] then [] else [Lower(s[0])] + LowerAll(s[1..])
  }
}
