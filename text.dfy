/** ASCII models of the Python string operations the controller relies on:
    `str.lower()`, the `in` substring test, `str.split()` with no argument
    (runs of whitespace) and with one separator, and `sep.join(parts)`. */
module Text {

  import opened Wrappers

  /** `str.isspace()` restricted to ASCII: tab to carriage return (9-13),
      the separators 28-31, and the space. */
  predicate IsSpace(c: char) {
    9 <= c as int <= 13 || 28 <= c as int <= 32
  }

  predicate NoSpace(w: string) {
    forall i :: 0 <= i < |w| ==> !IsSpace(w[i])
  }

  function LowerChar(c: char): char {
    if 'A' <= c <= 'Z' then (c as int + 32) as char else c
  }

  /** `str.lower()` on ASCII; other characters are left as they are. */
  function Lower(s: string): (r: string)
    ensures |r| == |s|
  {
    seq(|s|, i requires 0 <= i < |s| => LowerChar(s[i]))
  }

  predicate IsLower(s: string) {
    forall i :: 0 <= i < |s| ==> !('A' <= s[i] <= 'Z')
  }

  lemma LowerAppend(a: string, b: string)
    ensures Lower(a + b) == Lower(a) + Lower(b)
  {
    assert forall i :: 0 <= i < |a + b| ==> Lower(a + b)[i] == (Lower(a) + Lower(b))[i];
  }

  lemma LowerIsLower(s: string)
    ensures IsLower(Lower(s))
  {
    assert forall i :: 0 <= i < |s| ==> Lower(s)[i] == LowerChar(s[i]);
  }

  lemma LowerOfLower(s: string)
    requires IsLower(s)
    ensures Lower(s) == s
  {
    assert forall i :: 0 <= i < |s| ==> Lower(s)[i] == s[i];
  }

  /** Python's `p in s`: `p` occurs in `s` as a contiguous substring. */
  predicate Contains(s: string, p: string)
    decreases |s|
  {
    p <= s || (|s| > 0 && Contains(s[1..], p))
  }

  /** A pattern holding a character the text lacks does not occur in it. */
  lemma {:induction false} MissingCharExcludes(s: string, p: string, c: char)
    requires c in p && c !in s
    ensures !Contains(s, p)
    decreases |s|
  {
    var i :| 0 <= i < |p| && p[i] == c;
    assert |p| <= |s| ==> s[i] != p[i];
    if s != [] {
      assert c !in s[1..] by {
        assert forall k :: 0 <= k < |s[1..]| ==> s[1..][k] == s[k + 1];
      }
      MissingCharExcludes(s[1..], p, c);
    }
  }

  /** Where a pattern occurs, so does each of its prefixes. */
  lemma {:induction false} ContainsPrefix(s: string, p: string, q: string)
    requires Contains(s, p + q)
    ensures Contains(s, p)
    decreases |s|
  {
    if p + q <= s {
      assert p <= p + q;
    } else {
      ContainsPrefix(s[1..], p, q);
    }
  }

  lemma {:induction false} ContainsAfter(a: string, b: string, p: string)
    requires Contains(b, p)
    ensures Contains(a + b, p)
    decreases |a|
  {
    if a == [] {
      assert a + b == b;
    } else {
      assert (a + b)[1..] == a[1..] + b;
      ContainsAfter(a[1..], b, p);
    }
  }

  lemma {:induction false} ContainsBefore(a: string, b: string, p: string)
    requires Contains(a, p)
    ensures Contains(a + b, p)
    decreases |a|
  {
    if p <= a {
      assert p <= a + b;
    } else {
      assert (a + b)[1..] == a[1..] + b;
      ContainsBefore(a[1..], b, p);
    }
  }

  /** An occurrence of `p` in `a + [c] + b` lies on one side of `c` when `c`
      is not a character of `p`. */
  lemma {:induction false} ContainsAcross(a: string, c: char, b: string, p: string)
    requires Contains(a + [c] + b, p)
    requires c !in p
    ensures Contains(a, p) || Contains(b, p)
    decreases |a|
  {
    if p == [] {
      assert p <= a;
    } else if a == [] {
      assert a + [c] + b == [c] + b;
      assert p[0] in p && ([c] + b)[0] == c;
      assert !(p <= [c] + b);
      assert ([c] + b)[1..] == b;
    } else if p <= a + [c] + b {
      assert (a + [c] + b)[|a|] == c;
      assert forall i :: 0 <= i < |p| ==> p[i] == (a + [c] + b)[i] && p[i] != c;
      assert |p| <= |a|;
      assert p <= a;
    } else {
      assert (a + [c] + b)[1..] == a[1..] + [c] + b;
      ContainsAcross(a[1..], c, b, p);
    }
  }

  // ---------------------------------------------------------------------
  // str.split() with no argument

  function WordsFrom(s: string, cur: string): (r: seq<string>)
    requires NoSpace(cur)
    ensures forall k :: 0 <= k < |r| ==> r[k] != [] && NoSpace(r[k])
    decreases |s|
  {
    if s == [] then
      (if cur == [] then [] else [cur])
    else if IsSpace(s[0]) then
      (if cur == [] then [] else [cur]) + WordsFrom(s[1..], [])
    else
      WordsFrom(s[1..], cur + [s[0]])
  }

  /** `s.split()`: the maximal runs of non-whitespace characters, in order;
      no word is empty and no word holds whitespace. */
  function Words(s: string): (r: seq<string>)
    ensures forall k :: 0 <= k < |r| ==> r[k] != [] && NoSpace(r[k])
  {
    WordsFrom(s, [])
  }

  lemma {:induction false} WordsFromSpace(a: string, c: char, b: string, cur: string)
    requires NoSpace(cur) && IsSpace(c)
    ensures WordsFrom(a + [c] + b, cur) == WordsFrom(a, cur) + WordsFrom(b, [])
    decreases |a|
  {
    var s := a + [c] + b;
    if a == [] {
      assert s[0] == c && s[1..] == b;
    } else {
      assert s[0] == a[0] && s[1..] == a[1..] + [c] + b;
      if IsSpace(a[0]) {
        WordsFromSpace(a[1..], c, b, []);
      } else {
        WordsFromSpace(a[1..], c, b, cur + [a[0]]);
      }
    }
  }

  /** Words separated by a space split independently. */
  lemma WordsAppend(a: string, b: string)
    ensures Words(a + " " + b) == Words(a) + Words(b)
  {
    WordsFromSpace(a, ' ', b, []);
  }

  lemma {:induction false} WordsFromWord(w: string, cur: string)
    requires NoSpace(cur) && NoSpace(w) && cur + w != []
    ensures WordsFrom(w, cur) == [cur + w]
    decreases |w|
  {
    if w == [] {
      assert cur + w == cur;
    } else {
      assert cur + w == (cur + [w[0]]) + w[1..];
      WordsFromWord(w[1..], cur + [w[0]]);
    }
  }

  /** A non-empty run without whitespace is a single word. */
  lemma WordsOfWord(w: string)
    requires w != [] && NoSpace(w)
    ensures Words(w) == [w]
  {
    WordsFromWord(w, []);
    assert [] + w == w;
  }

  /** A pattern without whitespace that occurs in a string occurs inside one
      of its words. */
  lemma {:induction false} WordsFromContain(s: string, cur: string, p: string)
    requires NoSpace(cur) && NoSpace(p) && p != []
    requires Contains(cur + s, p)
    ensures exists k :: 0 <= k < |WordsFrom(s, cur)| && Contains(WordsFrom(s, cur)[k], p)
    decreases |s|
  {
    var r := WordsFrom(s, cur);
    if s == [] {
      assert cur + s == cur;
      assert cur != [];
      assert r[0] == cur;
    } else if IsSpace(s[0]) {
      assert cur + s == cur + [s[0]] + s[1..];
      assert s[0] !in p;
      ContainsAcross(cur, s[0], s[1..], p);
      var tail := WordsFrom(s[1..], []);
      if Contains(cur, p) {
        assert cur != [];
        assert r[0] == cur;
      } else {
        assert [] + s[1..] == s[1..];
        WordsFromContain(s[1..], [], p);
        var k :| 0 <= k < |tail| && Contains(tail[k], p);
        if cur == [] {
          assert r == tail;
        } else {
          assert r == [cur] + tail && r[k + 1] == tail[k];
        }
      }
    } else {
      assert cur + s == (cur + [s[0]]) + s[1..];
      WordsFromContain(s[1..], cur + [s[0]], p);
    }
  }

  lemma WordsContain(s: string, p: string)
    requires NoSpace(p) && p != [] && Contains(s, p)
    ensures exists k :: 0 <= k < |Words(s)| && Contains(Words(s)[k], p)
  {
    assert [] + s == s;
    WordsFromContain(s, [], p);
    var k :| 0 <= k < |WordsFrom(s, [])| && Contains(WordsFrom(s, [])[k], p);
    assert Words(s)[k] == WordsFrom(s, [])[k];
  }

  /** The index of the first element of `ws` containing `p`, if any. */
  function FirstContaining(ws: seq<string>, p: string): (r: Option<nat>)
    ensures r.Some? ==> r.value < |ws| && Contains(ws[r.value], p)
    ensures r.Some? ==> forall j :: 0 <= j < r.value ==> !Contains(ws[j], p)
    ensures r.None? <==> forall j :: 0 <= j < |ws| ==> !Contains(ws[j], p)
  {
    if ws == [] then None
    else if Contains(ws[0], p) then Some(0)
    else match FirstContaining(ws[1..], p)
      case None => None
      case Some(i) => Some(i + 1)
  }

  // ---------------------------------------------------------------------
  // str.split(sep) and sep.join(parts)

  function SplitFrom(s: string, sep: char, cur: string): (r: seq<string>)
    ensures |r| >= 1
    decreases |s|
  {
    if s == [] then [cur]
    else if s[0] == sep then [cur] + SplitFrom(s[1..], sep, [])
    else SplitFrom(s[1..], sep, cur + [s[0]])
  }

  /** `s.split(sep)`: always at least one field (`"".split(",") == [""]`). */
  function Split(s: string, sep: char): (r: seq<string>)
    ensures |r| >= 1
  {
    SplitFrom(s, sep, [])
  }

  /** `sep.join(parts)`. */
  function Join(parts: seq<string>, sep: char): string
  {
    if |parts| == 0 then ""
    else if |parts| == 1 then parts[0]
    else parts[0] + [sep] + Join(parts[1..], sep)
  }

  lemma {:induction false} SplitFromField(a: string, sep: char, cur: string)
    requires sep !in a
    ensures SplitFrom(a, sep, cur) == [cur + a]
    decreases |a|
  {
    if a == [] {
      assert cur + a == cur;
    } else {
      assert cur + a == (cur + [a[0]]) + a[1..];
      SplitFromField(a[1..], sep, cur + [a[0]]);
    }
  }

  lemma {:induction false} SplitFromSep(a: string, sep: char, b: string, cur: string)
    requires sep !in a
    ensures SplitFrom(a + [sep] + b, sep, cur) == [cur + a] + SplitFrom(b, sep, [])
    decreases |a|
  {
    var s := a + [sep] + b;
    if a == [] {
      assert s[0] == sep && s[1..] == b && cur + a == cur;
    } else {
      assert s[0] == a[0] && s[1..] == a[1..] + [sep] + b;
      assert cur + a == (cur + [a[0]]) + a[1..];
      SplitFromSep(a[1..], sep, b, cur + [a[0]]);
    }
  }

  /** Splitting at the first separator. */
  lemma SplitSep(a: string, sep: char, b: string)
    requires sep !in a
    ensures Split(a + [sep] + b, sep) == [a] + Split(b, sep)
  {
    SplitFromSep(a, sep, b, []);
    assert [] + a == a;
  }

  lemma SplitField(a: string, sep: char)
    requires sep !in a
    ensures Split(a, sep) == [a]
  {
    SplitFromField(a, sep, []);
    assert [] + a == a;
  }

  /** Splitting a join gives the parts back, as long as no part holds the
      separator and there is at least one part. */
  lemma {:induction false} SplitJoin(parts: seq<string>, sep: char)
    requires |parts| >= 1
    requires forall k :: 0 <= k < |parts| ==> sep !in parts[k]
    ensures Split(Join(parts, sep), sep) == parts
    decreases |parts|
  {
    if |parts| == 1 {
      SplitField(parts[0], sep);
    } else {
      SplitSep(parts[0], sep, Join(parts[1..], sep));
      SplitJoin(parts[1..], sep);
    }
  }
}
