/**
  The two static line parsers of `scripts/trie.py`, `tokenize_unigram` and
  `tokenize_ngram`, together with the pieces of Python's `str` they use:
  `strip()` with no argument, `split(sep)` with a non-empty separator, and
  `list(word)`.

  A line is a `string`; Python 2 byte strings are read as sequences of
  characters.  `strip()` removes the six ASCII whitespace characters that
  Python 2 treats as whitespace in a byte string.
*/
module Tokenize {
  import opened Wrappers
  import opened TrieSpec

  // ---------------------------------------------------------------------
  // strip()

  /** Space, tab, line feed, vertical tab, form feed and carriage return. */
  predicate IsSpace(c: char)
  {
    c == ' ' || c == '\t' || c == '\n' || c == '\U{000B}' || c == '\U{000C}' || c == '\r'
  }

  /** Every character of `s` is whitespace (true of the empty string). */
  predicate Blank(s: string)
  {
    forall k | 0 <= k < |s| :: IsSpace(s[k])
  }

  /** The number of whitespace characters at the start of `s`. */
  function Lead(s: string): (n: nat)
    ensures n <= |s|
    ensures forall k | 0 <= k < n :: IsSpace(s[k])
    ensures n < |s| ==> !IsSpace(s[n])
  {
    if |s| > 0 && IsSpace(s[0]) then 1 + Lead(s[1..]) else 0
  }

  /** The number of whitespace characters at the end of `s`. */
  function Trail(s: string): (n: nat)
    ensures n <= |s|
    ensures forall k | |s| - n <= k < |s| :: IsSpace(s[k])
    ensures n < |s| ==> !IsSpace(s[|s| - 1 - n])
  {
    if |s| > 0 && IsSpace(s[|s| - 1]) then 1 + Trail(s[..|s| - 1]) else 0
  }

  /** `s.strip()`: `s` without its leading and trailing whitespace. */
  function Strip(s: string): (r: string)
    ensures |r| <= |s|
    ensures r == [] <==> Blank(s)
    ensures r != [] ==> !IsSpace(r[0]) && !IsSpace(r[|r| - 1])
  {
    var t := s[Lead(s)..];
    t[..|t| - Trail(t)]
  }

  // ---------------------------------------------------------------------
  // split(sep)

  /** `sep` occurs in `s` starting at index `i`. */
  predicate OccursAt(s: string, sep: string, i: int)
  {
    0 <= i && i + |sep| <= |s| && s[i..i + |sep|] == sep
  }

  /** `sep in s`. */
  predicate Contains(s: string, sep: string)
  {
    exists i | 0 <= i <= |s| :: OccursAt(s, sep, i)
  }

  /** `s.find(sep, i)`: the first occurrence of `sep` at or after `i`. */
  function FindFrom(s: string, sep: string, i: nat): (r: Option<nat>)
    requires |sep| > 0 && i <= |s|
    ensures r.Some? ==>
      && i <= r.value && OccursAt(s, sep, r.value)
      && forall j | i <= j < r.value :: !OccursAt(s, sep, j)
    ensures r.None? ==> forall j | i <= j :: !OccursAt(s, sep, j)
    decreases |s| - i
  {
    if i + |sep| > |s| then None
    else if s[i..i + |sep|] == sep then Some(i)
    else FindFrom(s, sep, i + 1)
  }

  /** `sep.join(fields)`. */
  function Join(fields: seq<string>, sep: string): string
    requires |fields| > 0
  {
    if |fields| == 1 then fields[0] else fields[0] + sep + Join(fields[1..], sep)
  }

  /** `s.split(sep)`: the pieces between the occurrences of `sep`, found
      from left to right; empty pieces are kept. */
  function Split(s: string, sep: string): (r: seq<string>)
    requires |sep| > 0
    ensures |r| > 0
    ensures Join(r, sep) == s
    ensures forall k | 0 <= k < |r| :: !Contains(r[k], sep)
    decreases |s|
  {
    match FindFrom(s, sep, 0)
    case None => [s]
    case Some(i) =>
      var head := s[..i];
      assert !Contains(head, sep) by {
        forall j | 0 <= j <= |head| && OccursAt(head, sep, j) ensures false {
          assert s[j..j + |sep|] == head[j..j + |sep|];
          assert OccursAt(s, sep, j);
        }
      }
      var r := [head] + Split(s[i + |sep|..], sep);
      assert r[1..] == Split(s[i + |sep|..], sep);
      assert s == head + sep + s[i + |sep|..];
      r
  }

  /** No proper suffix of `sep` is also a prefix of it, so two occurrences
      of `sep` never overlap.  Both separators of the tokenizers qualify. */
  predicate Unbordered(sep: string)
  {
    forall k | 0 < k < |sep| :: sep[k..] != sep[..|sep| - k]
  }

  // ---------------------------------------------------------------------
  // list(word) and the comprehension of tokenize_ngram

  /** `list(w)`: the one-character strings of `w`. */
  function Chars(w: string): (r: seq<Token>)
    ensures |r| == |w|
    ensures forall i | 0 <= i < |r| :: |r[i]| == 1
  {
    if w == [] then [] else Chars(w[..|w| - 1]) + [[w[|w| - 1]]]
  }

  /** `[t for t in ts if t]`: the non-empty tokens, in order. */
  function NonEmpty(ts: seq<Token>): (r: seq<Token>)
    ensures |r| <= |ts|
    ensures forall t :: t in r <==> t in ts && t != []
  {
    if ts == [] then []
    else if ts[0] == [] then NonEmpty(ts[1..])
    else [ts[0]] + NonEmpty(ts[1..])
  }

  // ---------------------------------------------------------------------
  // The tokenizers

  /** `tokenize_unigram`: `None` for a blank line or a line of one field;
      otherwise the first space-separated field as the weight and the
      characters of the second as the tokens. */
  function TokenizeUnigram(line: string): (r: Option<(Weight, seq<Token>)>)
    ensures r.None? <==> ' ' !in Strip(line)
    ensures r.Some? ==> ' ' !in r.value.0 && forall i | 0 <= i < |r.value.1| :: |r.value.1[i]| == 1
  {
    var stripped := Strip(line);
    if stripped == [] then None
    else
      var s := Split(stripped, " ");
      SplitCount(stripped, ' ');
      if |s| < 2 then None
      else
        NoSpace(s[0]);
        Some((s[0], Chars(s[1])))
  }

  /** `tokenize_ngram`: `None` for a blank line or a line of one field;
      otherwise the second space-separated field as the weight and, as the
      tokens, the non-empty `<>`-separated parts of the first field except
      its last part. */
  function TokenizeNgram(line: string): (r: Option<(Weight, seq<Token>)>)
    ensures r.None? <==> ' ' !in Strip(line)
    ensures r.Some? ==> ' ' !in r.value.0 && forall t | t in r.value.1 :: t != [] && !Contains(t, "<>")
  {
    var stripped := Strip(line);
    if stripped == [] then None
    else
      var s := Split(stripped, " ");
      SplitCount(stripped, ' ');
      if |s| < 2 then None
      else
        NoSpace(s[1]);
        var tokens := Split(s[0], "<>");
        var kept := tokens[0..|tokens| - 1];
        assert forall t | t in kept :: !Contains(t, "<>");
        Some((s[1], NonEmpty(kept)))
  }

  // ---------------------------------------------------------------------
  // Helper facts used by the tokenizers

  /** A one-character separator occurs exactly where that character does. */
  lemma ContainsChar(s: string, c: char)
    ensures Contains(s, [c]) <==> c in s
  {
    if c in s {
      var i :| 0 <= i < |s| && s[i] == c;
      assert OccursAt(s, [c], i);
    }
    if Contains(s, [c]) {
      var i :| 0 <= i <= |s| && OccursAt(s, [c], i);
      assert s[i..i + 1] == [c];
      assert s[i] == c;
    }
  }

  /** A string without `c` has no `c` once read as a one-character field. */
  lemma NoSpace(f: string)
    requires !Contains(f, " ")
    ensures ' ' !in f
  {
    ContainsChar(f, ' ');
  }

  /** Splitting on one character gives at least two fields exactly when the
      character occurs. */
  lemma SplitCount(s: string, c: char)
    ensures |Split(s, [c])| >= 2 <==> c in s
  {
    ContainsChar(s, c);
    var r := Split(s, [c]);
    if |r| == 1 {
      assert Join(r, [c]) == r[0];
    } else {
      assert s == r[0] + [c] + Join(r[1..], [c]);
      assert s[|r[0]|] == c;
    }
  }

  // ---------------------------------------------------------------------
  // Properties

  /** `strip()` removes exactly the whitespace around a text that starts
      and ends with a non-whitespace character. */
  lemma StripPadded(a: string, m: string, b: string)
    requires Blank(a) && Blank(b)
    requires m != [] ==> !IsSpace(m[0]) && !IsSpace(m[|m| - 1])
    ensures Strip(a + m + b) == m
  {
    var s := a + m + b;
    if m == [] {
      assert s == a + b;
      assert Blank(s) by {
        forall k | 0 <= k < |s| ensures IsSpace(s[k]) {
          if k < |a| { assert s[k] == a[k]; } else { assert s[k] == b[k - |a|]; }
        }
      }
    } else {
      assert s[|a|] == m[0];
      assert forall k | 0 <= k < |a| :: s[k] == a[k];
      assert Lead(s) == |a|;
      var t := s[|a|..];
      assert t == m + b;
      assert t[|m| - 1] == m[|m| - 1];
      assert forall k | |m| <= k < |t| :: t[k] == b[k - |m|];
      var e := Trail(t);
      assert e == |b|;
      assert t[..|t| - e] == m;
    }
  }

  /** Stripping twice is stripping once. */
  lemma StripIdempotent(s: string)
    ensures Strip(Strip(s)) == Strip(s)
  {
    var r := Strip(s);
    StripPadded([], r, []);
    assert [] + r + [] == r;
  }

  /** A field without the separator is found nowhere before the separator
      that follows it. */
  lemma FindAfterField(f: string, sep: string, rest: string)
    requires |sep| > 0 && Unbordered(sep) && !Contains(f, sep)
    ensures FindFrom(f + sep + rest, sep, 0) == Some(|f|)
  {
    var s := f + sep + rest;
    assert s[|f|..|f| + |sep|] == sep;
    assert OccursAt(s, sep, |f|);
    var r := FindFrom(s, sep, 0);
    var j := r.value;
    if j < |f| {
      if j + |sep| <= |f| {
        assert f[j..j + |sep|] == s[j..j + |sep|];
        assert OccursAt(f, sep, j);
      } else {
        Overlap(f, sep, rest, j);
      }
    }
  }

  /** An occurrence of `sep` that starts inside `f` and ends inside the
      `sep` after it: a proper suffix of `sep` is then also its prefix. */
  lemma Overlap(f: string, sep: string, rest: string, j: int)
    requires OccursAt(f + sep + rest, sep, j) && j < |f| < j + |sep|
    ensures sep[|f| - j..] == sep[..|sep| - (|f| - j)]
  {
    var s := f + sep + rest;
    assert sep[|f| - j..] == s[|f|..j + |sep|];
  }

  /** A field without the separator is split into itself alone. */
  lemma FindInField(f: string, sep: string)
    requires |sep| > 0 && !Contains(f, sep)
    ensures FindFrom(f, sep, 0).None?
  {
  }

  /** `split` undoes `join` when no field contains the separator and the
      separator cannot overlap itself. */
  lemma {:induction false} SplitJoin(fields: seq<string>, sep: string)
    requires |sep| > 0 && Unbordered(sep) && |fields| > 0
    requires forall k | 0 <= k < |fields| :: !Contains(fields[k], sep)
    ensures Split(Join(fields, sep), sep) == fields
    decreases |fields|
  {
    if |fields| == 1 {
      FindInField(fields[0], sep);
    } else {
      var rest := Join(fields[1..], sep);
      FindAfterField(fields[0], sep, rest);
      var s := fields[0] + sep + rest;
      assert s[|fields[0]| + |sep|..] == rest;
      SplitJoin(fields[1..], sep);
    }
  }

  /** The separators of both tokenizers cannot overlap themselves. */
  lemma SeparatorsUnbordered()
    ensures Unbordered(" ") && Unbordered("<>")
  {
    assert "<>"[1..] == ">" && "<>"[..1] == "<";
  }

  /** The characters of `list(w)` joined back together give `w`. */
  lemma {:induction false} ConcatChars(w: string)
    ensures Concat(Chars(w)) == w
  {
    if w != [] {
      var c := Chars(w);
      assert c[..|c| - 1] == Chars(w[..|w| - 1]);
      ConcatChars(w[..|w| - 1]);
      assert w[..|w| - 1] + [w[|w| - 1]] == w;
    }
  }

  /** A word read by `tokenize_unigram` is reported by `keys()` as the word
      itself, since every token is one character long. */
  lemma RenderChars(w: string)
    ensures Render(Chars(w)) == Joined(w)
  {
    ConcatChars(w);
  }

  /** Filtering tokens that are all non-empty keeps them all. */
  lemma {:induction false} NonEmptyKeepsAll(ts: seq<Token>)
    requires forall i | 0 <= i < |ts| :: ts[i] != []
    ensures NonEmpty(ts) == ts
  {
    if ts != [] {
      NonEmptyKeepsAll(ts[1..]);
    }
  }

  /** The filter keeps every non-empty token as often as it occurs and
      drops every empty one. */
  lemma {:induction false} NonEmptyMultiset(ts: seq<Token>)
    ensures multiset(NonEmpty(ts)) == multiset(ts)[[] := 0]
  {
    if ts != [] {
      assert ts == [ts[0]] + ts[1..];
      NonEmptyMultiset(ts[1..]);
    }
  }

  /** The filter works token by token, so it keeps the order of the tokens
      it keeps. */
  lemma {:induction false} NonEmptyAppend(a: seq<Token>, b: seq<Token>)
    ensures NonEmpty(a + b) == NonEmpty(a) + NonEmpty(b)
  {
    if a == [] {
      assert a + b == b;
    } else {
      assert (a + b)[0] == a[0];
      assert (a + b)[1..] == a[1..] + b;
      NonEmptyAppend(a[1..], b);
    }
  }

  /** No character of `s` is whitespace. */
  predicate Solid(s: string)
  {
    forall k | 0 <= k < |s| :: !IsSpace(s[k])
  }

  /** A string with no whitespace has no space separator in it. */
  lemma SolidHasNoSpace(s: string)
    requires Solid(s)
    ensures !Contains(s, " ")
  {
    ContainsChar(s, ' ');
  }

  /** Joining whitespace-free parts with `<>` gives a whitespace-free string
      whose first character is the first part's. */
  lemma {:induction false} JoinSolid(parts: seq<string>)
    requires |parts| > 0 && forall k | 0 <= k < |parts| :: Solid(parts[k])
    ensures Solid(Join(parts, "<>"))
    ensures parts[0] != [] ==> Join(parts, "<>")[0] == parts[0][0]
    decreases |parts|
  {
    if |parts| > 1 {
      JoinSolid(parts[1..]);
      var rest := Join(parts[1..], "<>");
      var s := parts[0] + "<>" + rest;
      forall k | 0 <= k < |s| ensures !IsSpace(s[k]) {
        if k < |parts[0]| {
          assert s[k] == parts[0][k];
        } else if k < |parts[0]| + 2 {
          assert s[k] == "<>"[k - |parts[0]|];
        } else {
          assert s[k] == rest[k - |parts[0]| - 2];
        }
      }
    }
  }

  /** The padded text `a + m + " " + n + b` of two whitespace-free fields
      strips to the two fields and splits back into them. */
  lemma TwoFields(a: string, m: string, n: string, b: string)
    requires Blank(a) && Blank(b) && Solid(m) && Solid(n) && m != [] && n != []
    ensures Strip(a + (m + " " + n) + b) == m + " " + n
    ensures Split(m + " " + n, " ") == [m, n]
  {
    var mn := m + " " + n;
    assert mn[0] == m[0] && mn[|mn| - 1] == n[|n| - 1];
    StripPadded(a, mn, b);
    SolidHasNoSpace(m);
    SolidHasNoSpace(n);
    SeparatorsUnbordered();
    assert Join([m, n], " ") == mn by {
      assert [m, n][1..] == [n];
    }
    SplitJoin([m, n], " ");
  }

  /** Round trip of a unigram line: `weight word`, with any whitespace
      around it, is read back as the weight and the characters of the
      word. */
  lemma UnigramRoundTrip(a: string, w: Weight, x: string, b: string)
    requires Blank(a) && Blank(b) && Solid(w) && Solid(x) && w != [] && x != []
    ensures TokenizeUnigram(a + (w + " " + x) + b) == Some((w, Chars(x)))
  {
    TwoFields(a, w, x, b);
  }

  /** Round trip of an n-gram line: the tokens joined with `<>`, then `<>`
      and a rank, a space and the weight, with any whitespace around it,
      are read back as the weight and the tokens. */
  lemma NgramRoundTrip(a: string, ts: seq<Token>, rank: string, w: Weight, b: string)
    requires Blank(a) && Blank(b) && Solid(w) && w != [] && Solid(rank) && rank != []
    requires !Contains(rank, "<>")
    requires forall i | 0 <= i < |ts| :: ts[i] != [] && Solid(ts[i]) && !Contains(ts[i], "<>")
    ensures TokenizeNgram(a + (Join(ts + [rank], "<>") + " " + w) + b) == Some((w, ts))
  {
    var parts := ts + [rank];
    var f := Join(parts, "<>");
    NgramKey(ts, rank);
    TwoFields(a, f, w, b);
    assert parts[0..|parts| - 1] == ts;
    NonEmptyKeepsAll(ts);
  }

  /** The first field of an n-gram line, `w1<>...<>wn<>rank`, is a
      non-empty, whitespace-free string that splits back into its parts. */
  lemma NgramKey(ts: seq<Token>, rank: string)
    requires Solid(rank) && rank != [] && !Contains(rank, "<>")
    requires forall i | 0 <= i < |ts| :: ts[i] != [] && Solid(ts[i]) && !Contains(ts[i], "<>")
    ensures var f := Join(ts + [rank], "<>"); f != [] && Solid(f) && Split(f, "<>") == ts + [rank]
  {
    var parts := ts + [rank];
    forall k | 0 <= k < |parts|
      ensures parts[k] != [] && Solid(parts[k]) && !Contains(parts[k], "<>")
    {
      if k < |ts| {
        assert parts[k] == ts[k];
      }
    }
    JoinSolid(parts);
    var f := Join(parts, "<>");
    assert f[0] == parts[0][0];
    SeparatorsUnbordered();
    SplitJoin(parts, "<>");
  }

  /** The first two fields of a join, then the rest. */
  lemma JoinTwo(f: seq<string>, sep: string)
    requires |f| >= 2
    ensures Join(f, sep) == f[0] + sep + f[1] + (if |f| == 2 then [] else sep + Join(f[2..], sep))
  {
    assert f[1..][1..] == f[2..];
  }

  /** What `tokenize_unigram` reads: the weight is the stripped line up to
      its first space, and the word runs from there to the next space or
      the end of the line. */
  lemma UnigramFields(line: string)
    requires TokenizeUnigram(line).Some?
    ensures var (w, ts) := TokenizeUnigram(line).value;
      var x := Concat(ts);
      var s := Strip(line);
      var n := |w| + 1 + |x|;
      && ' ' !in x && n <= |s| && s[..n] == w + " " + x
      && (n == |s| || s[n] == ' ')
  {
    var s := Strip(line);
    var f := Split(s, " ");
    ConcatChars(f[1]);
    NoSpace(f[1]);
    JoinTwo(f, " ");
    var tail: string := if |f| == 2 then [] else " " + Join(f[2..], " ");
    assert s == (f[0] + " " + f[1]) + tail;
  }

  /** What `tokenize_ngram` reads: the weight is the second space-separated
      field of the stripped line, and the tokens come out of the first. */
  lemma NgramFields(line: string)
    requires TokenizeNgram(line).Some?
    ensures var w := TokenizeNgram(line).value.0;
      var s := Strip(line);
      var f := Split(s, " ")[0];
      var n := |f| + 1 + |w|;
      && ' ' !in f && n <= |s| && s[..n] == f + " " + w
      && (n == |s| || s[n] == ' ')
      && TokenizeNgram(line).value.1 == NonEmpty(Split(f, "<>")[..|Split(f, "<>")| - 1])
  {
    var s := Strip(line);
    var f := Split(s, " ");
    NoSpace(f[0]);
    JoinTwo(f, " ");
    var tail: string := if |f| == 2 then [] else " " + Join(f[2..], " ");
    assert s == (f[0] + " " + f[1]) + tail;
  }
}
