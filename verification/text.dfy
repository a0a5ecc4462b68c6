/**
  The string primitives the client relies on, restricted to what the model needs:
  `String.prototype.trim`, `split` on one character and on a run of one character,
  ASCII `toLowerCase` and `includes`.
 */
module Text {
  import opened Sequences

  /** The whitespace `trim` removes, restricted to the ASCII set:
      space, tab, line feed, vertical tab, form feed, carriage return. */
  predicate IsSpace(c: char) {
    c == ' ' || c == '\t' || c == '\n' || c == '\U{B}' || c == '\U{C}' || c == '\r'
  }

  predicate AllSpace(s: string) {
    forall k :: 0 <= k < |s| ==> IsSpace(s[k])
  }

  /** Neither end of `s` is whitespace: what `trim` guarantees of its result. */
  predicate IsTrimmed(s: string) {
    |s| == 0 || (!IsSpace(s[0]) && !IsSpace(s[|s| - 1]))
  }

  // ---------------------------------------------------------------------------
  // trim

  /** Drops leading whitespace. */
  function TrimStart(s: string): (r: string)
    ensures |r| <= |s|
    ensures |r| == 0 || !IsSpace(r[0])
  {
    if |s| > 0 && IsSpace(s[0]) then TrimStart(s[1..]) else s
  }

  /** Drops trailing whitespace; what remains starts where `s` starts. */
  function TrimEnd(s: string): (r: string)
    ensures |r| <= |s|
    ensures |r| == 0 || !IsSpace(r[|r| - 1])
    ensures |r| > 0 ==> r[0] == s[0]
  {
    if |s| > 0 && IsSpace(s[|s| - 1]) then TrimEnd(s[..|s| - 1]) else s
  }

  /** `s.trim()`. */
  function Trim(s: string): (r: string)
    ensures IsTrimmed(r)
    ensures |r| <= |s|
  {
    TrimEnd(TrimStart(s))
  }

  /** What `TrimStart` removed is whitespace, and what it kept is a suffix. */
  lemma {:induction false} TrimStartSuffix(s: string)
    ensures s == s[..|s| - |TrimStart(s)|] + TrimStart(s)
    ensures AllSpace(s[..|s| - |TrimStart(s)|])
    decreases |s|
  {
    if |s| > 0 && IsSpace(s[0]) {
      TrimStartSuffix(s[1..]);
      var n := |s| - |TrimStart(s)|;
      assert s[..n] == [s[0]] + s[1..][..n - 1];
      assert s == [s[0]] + s[1..];
    }
  }

  /** What `TrimEnd` removed is whitespace, and what it kept is a prefix. */
  lemma {:induction false} TrimEndPrefix(s: string)
    ensures s == TrimEnd(s) + s[|TrimEnd(s)|..]
    ensures AllSpace(s[|TrimEnd(s)|..])
    decreases |s|
  {
    if |s| > 0 && IsSpace(s[|s| - 1]) {
      var p := s[..|s| - 1];
      TrimEndPrefix(p);
      var n := |TrimEnd(s)|;
      assert s[n..] == p[n..] + [s[|s| - 1]];
      assert s == p + [s[|s| - 1]];
    }
  }

  /** Every string is its trimmed form between an all-space prefix and an
      all-space suffix. */
  lemma TrimSplits(s: string) returns (pre: string, post: string)
    ensures s == pre + Trim(s) + post
    ensures AllSpace(pre) && AllSpace(post)
  {
    TrimStartSuffix(s);
    var t := TrimStart(s);
    TrimEndPrefix(t);
    pre := s[..|s| - |t|];
    post := t[|TrimEnd(t)|..];
  }

  lemma {:induction false} TrimStartSkips(pre: string, t: string)
    requires AllSpace(pre)
    requires |t| == 0 || !IsSpace(t[0])
    ensures TrimStart(pre + t) == t
    decreases |pre|
  {
    if |pre| > 0 {
      assert (pre + t)[1..] == pre[1..] + t;
      TrimStartSkips(pre[1..], t);
    } else {
      assert pre + t == t;
    }
  }

  lemma {:induction false} TrimEndSkips(t: string, post: string)
    requires AllSpace(post)
    requires |t| == 0 || !IsSpace(t[|t| - 1])
    ensures TrimEnd(t + post) == t
    decreases |post|
  {
    if |post| > 0 {
      assert (t + post)[..|t + post| - 1] == t + post[..|post| - 1];
      TrimEndSkips(t, post[..|post| - 1]);
    } else {
      assert t + post == t;
    }
  }

  /** `trim` is determined by its specification: whatever sits between an all-space
      prefix and an all-space suffix, with no whitespace at either of its own ends,
      is the trimmed string. */
  lemma TrimUnique(pre: string, mid: string, post: string)
    requires AllSpace(pre) && AllSpace(post) && IsTrimmed(mid)
    ensures Trim(pre + mid + post) == mid
  {
    if |mid| == 0 {
      assert pre + mid + post == (pre + post) + mid;
      assert AllSpace(pre + post);
      TrimStartSkips(pre + post, mid);
    } else {
      assert pre + mid + post == pre + (mid + post);
      TrimStartSkips(pre, mid + post);
      TrimEndSkips(mid, post);
    }
  }

  /** Trimming twice is trimming once. */
  lemma TrimIdempotent(s: string)
    ensures Trim(Trim(s)) == Trim(s)
  {
    var t := Trim(s);
    assert [] + t + [] == t;
    TrimUnique([], t, []);
  }

  // ---------------------------------------------------------------------------
  // split on one character

  /** Position of the first `c` in `s`. */
  function IndexOf(s: string, c: char): (i: nat)
    requires c in s
    ensures i < |s| && s[i] == c && c !in s[..i]
  {
    if s[0] == c then 0 else assert c in s[1..]; 1 + IndexOf(s[1..], c)
  }

  /** The first occurrence is the one with no earlier occurrence. */
  lemma {:induction false} IndexOfUnique(s: string, c: char, j: nat)
    requires j < |s| && s[j] == c && c !in s[..j]
    ensures IndexOf(s, c) == j
    decreases j
  {
    if j > 0 {
      assert s[0] in s[..j];
      assert s[1..][..j - 1] == s[1..j];
      assert s[..j] == [s[0]] + s[1..][..j - 1];
      IndexOfUnique(s[1..], c, j - 1);
    }
  }

  /** `s.split(sep)` for a one-character string separator: never empty. */
  function Split(s: string, sep: char): (r: seq<string>)
    ensures |r| >= 1
    decreases |s|
  {
    if sep !in s then [s]
    else
      var i := IndexOf(s, sep);
      [s[..i]] + Split(s[i + 1..], sep)
  }

  /** A text splits into more than one field exactly when it holds the separator. */
  lemma {:induction false} SplitSingle(s: string, sep: char)
    ensures |Split(s, sep)| == 1 <==> sep !in s
  {
    if sep in s {
      var i := IndexOf(s, sep);
      var rest := Split(s[i + 1..], sep);
      assert Split(s, sep) == [s[..i]] + rest;
      assert |rest| >= 1;
    } else {
      assert Split(s, sep) == [s];
    }
  }

  /** No field of a split contains the separator. */
  lemma {:induction false} SplitFieldsFree(s: string, sep: char)
    ensures forall k :: 0 <= k < |Split(s, sep)| ==> sep !in Split(s, sep)[k]
    decreases |s|
  {
    if sep in s {
      var i := IndexOf(s, sep);
      var r, rest := Split(s, sep), Split(s[i + 1..], sep);
      SplitFieldsFree(s[i + 1..], sep);
      assert r == [s[..i]] + rest;
      forall k | 0 < k < |r|
        ensures sep !in r[k]
      {
        assert r[k] == rest[k - 1];
      }
    }
  }

  /** `parts.join(sep)`, the inverse of `Split`. */
  function Join(parts: seq<string>, sep: char): string
    requires |parts| >= 1
  {
    if |parts| == 1 then parts[0] else parts[0] + [sep] + Join(parts[1..], sep)
  }

  /** Splitting and joining back gives the original text. */
  lemma {:induction false} JoinSplit(s: string, sep: char)
    ensures Join(Split(s, sep), sep) == s
    decreases |s|
  {
    if sep in s {
      var i := IndexOf(s, sep);
      var r := Split(s, sep);
      assert r[1..] == Split(s[i + 1..], sep);
      JoinSplit(s[i + 1..], sep);
      assert s == s[..i] + [sep] + s[i + 1..];
    }
  }

  /** Joining separator-free fields and splitting again gives the fields back. */
  lemma {:induction false} SplitJoin(parts: seq<string>, sep: char)
    requires |parts| >= 1
    requires forall k :: 0 <= k < |parts| ==> sep !in parts[k]
    ensures Split(Join(parts, sep), sep) == parts
    decreases |parts|
  {
    if |parts| > 1 {
      var s := Join(parts, sep);
      var rest := Join(parts[1..], sep);
      assert s == parts[0] + [sep] + rest;
      assert sep in s by { assert s[|parts[0]|] == sep; }
      assert s[..|parts[0]|] == parts[0];
      IndexOfUnique(s, sep, |parts[0]|);
      var i := IndexOf(s, sep);
      assert s[..i] == parts[0];
      assert s[i + 1..] == rest;
      SplitJoin(parts[1..], sep);
    }
  }

  /** A separator-free field followed by the separator splits off as the first field. */
  lemma SplitCons(a: string, sep: char, rest: string)
    requires sep !in a
    ensures Split(a + [sep] + rest, sep) == [a] + Split(rest, sep)
  {
    var s := a + [sep] + rest;
    assert s[..|a|] == a;
    assert s[|a|] == sep;
    IndexOfUnique(s, sep, |a|);
    assert s[|a| + 1..] == rest;
  }

  /** Past the first separator of `a`, splitting `a + sep + b` continues on the rest. */
  lemma SplitPastFirst(a: string, sep: char, b: string)
    requires sep in a
    ensures var i := IndexOf(a, sep);
      Split(a + [sep] + b, sep) == [a[..i]] + Split(a[i + 1..] + [sep] + b, sep)
  {
    var i := IndexOf(a, sep);
    var first, more := a[..i], a[i + 1..];
    assert a == first + [sep] + more;
    assert a + [sep] + b == first + [sep] + (more + [sep] + b);
    SplitCons(first, sep, more + [sep] + b);
  }

  /** One step of `SplitAppend`: if the fields of the text after the first separator
      of `a` split at the extra separator, so do the fields of `a`. */
  lemma SplitAppendStep(a: string, sep: char, b: string)
    requires sep in a
    requires var more := a[IndexOf(a, sep) + 1..];
      Split(more + [sep] + b, sep) == Split(more, sep) + Split(b, sep)
    ensures Split(a + [sep] + b, sep) == Split(a, sep) + Split(b, sep)
  {
    var i := IndexOf(a, sep);
    SplitPastFirst(a, sep, b);
    AppendAssoc([a[..i]], Split(a[i + 1..], sep), Split(b, sep));
  }

  /** Splitting at a separator splits the fields: `(a + sep + b).split(sep)` is
      `a.split(sep)` followed by `b.split(sep)`. */
  lemma {:induction false} SplitAppend(a: string, sep: char, b: string)
    ensures Split(a + [sep] + b, sep) == Split(a, sep) + Split(b, sep)
    decreases |a|
  {
    if sep !in a {
      SplitCons(a, sep, b);
    } else {
      SplitAppend(a[IndexOf(a, sep) + 1..], sep, b);
      SplitAppendStep(a, sep, b);
    }
  }

  // ---------------------------------------------------------------------------
  // split on a run of one character (a regular expression like /\n+/)

  /** Drops every leading `c`. */
  function DropLeading(s: string, c: char): (r: string)
    ensures |r| <= |s|
    ensures |r| == 0 || r[0] != c
  {
    if |s| > 0 && s[0] == c then DropLeading(s[1..], c) else s
  }

  /** `s.split(/c+/)`: a maximal run of separators separates two fields. */
  function SplitRuns(s: string, sep: char): (r: seq<string>)
    ensures |r| >= 1
    decreases |s|
  {
    if sep !in s then [s]
    else
      var i := IndexOf(s, sep);
      [s[..i]] + SplitRuns(DropLeading(s[i + 1..], sep), sep)
  }

  /** No field of a split on separator runs contains the separator. */
  lemma {:induction false} SplitRunsFieldsFree(s: string, sep: char)
    ensures forall k :: 0 <= k < |SplitRuns(s, sep)| ==> sep !in SplitRuns(s, sep)[k]
    decreases |s|
  {
    if sep in s {
      var i := IndexOf(s, sep);
      var d := DropLeading(s[i + 1..], sep);
      var r, rest := SplitRuns(s, sep), SplitRuns(d, sep);
      SplitRunsFieldsFree(d, sep);
      assert r == [s[..i]] + rest;
      forall k | 0 < k < |r|
        ensures sep !in r[k]
      {
        assert r[k] == rest[k - 1];
      }
    }
  }

  // ---------------------------------------------------------------------------
  // the line pipeline `.map(l => l.trim()).filter(Boolean)`

  /** One line after `.trim()` and `.filter(Boolean)`: the trimmed line, or nothing
      when it is blank. */
  function CleanLine(line: string): (r: seq<string>)
    ensures |r| <= 1
    ensures forall k :: 0 <= k < |r| ==> |r[k]| > 0 && IsTrimmed(r[k])
  {
    var t := Trim(line);
    if |t| == 0 then [] else [t]
  }

  /** Trims every line and drops those left empty. */
  function Clean(lines: seq<string>): (r: seq<string>)
    ensures |r| <= |lines|
  {
    if |lines| == 0 then [] else CleanLine(lines[0]) + Clean(lines[1..])
  }

  /** Every line that survives cleaning is non-empty and trimmed. */
  lemma {:induction false} CleanTrimmed(lines: seq<string>)
    ensures forall k :: 0 <= k < |Clean(lines)| ==> |Clean(lines)[k]| > 0 && IsTrimmed(Clean(lines)[k])
    decreases |lines|
  {
    if |lines| > 0 {
      CleanTrimmed(lines[1..]);
      var head, rest := CleanLine(lines[0]), Clean(lines[1..]);
      var r := Clean(lines);
      assert r == head + rest;
      forall k | 0 <= k < |r|
        ensures |r[k]| > 0 && IsTrimmed(r[k])
      {
        if k >= |head| {
          assert r[k] == rest[k - |head|];
        }
      }
    }
  }

  /** Cleaning distributes over concatenation: the output keeps input line order. */
  lemma {:induction false} CleanAppend(a: seq<string>, b: seq<string>)
    ensures Clean(a + b) == Clean(a) + Clean(b)
    decreases |a|
  {
    if |a| == 0 {
      assert a + b == b;
    } else {
      assert (a + b)[0] == a[0];
      assert (a + b)[1..] == a[1..] + b;
      CleanAppend(a[1..], b);
    }
  }

  /** Leading empty fields vanish once lines are cleaned. */
  lemma {:induction false} CleanSplitDropLeading(s: string, sep: char)
    ensures Clean(Split(DropLeading(s, sep), sep)) == Clean(Split(s, sep))
    decreases |s|
  {
    if |s| > 0 && s[0] == sep {
      assert IndexOf(s, sep) == 0;
      assert s[..0] == [];
      var r := Split(s, sep);
      assert r == [[]] + Split(s[1..], sep);
      assert CleanLine([]) == [];
      assert r[1..] == Split(s[1..], sep);
      CleanSplitDropLeading(s[1..], sep);
    }
  }

  /** Past the first separator, `split(sep)` continues on the rest. */
  lemma SplitAtFirst(s: string, sep: char)
    requires sep in s
    ensures Split(s, sep) == [s[..IndexOf(s, sep)]] + Split(s[IndexOf(s, sep) + 1..], sep)
  {
  }

  /** Past the first separator and the run it starts, `split(/sep+/)` continues on
      the rest. */
  lemma SplitRunsAtFirst(s: string, sep: char)
    requires sep in s
    ensures SplitRuns(s, sep)
      == [s[..IndexOf(s, sep)]] + SplitRuns(DropLeading(s[IndexOf(s, sep) + 1..], sep), sep)
  {
  }

  /** Line lists that clean alike still clean alike behind the same first line. */
  lemma CleanBehind(line: string, x: seq<string>, y: seq<string>)
    requires Clean(x) == Clean(y)
    ensures Clean([line] + x) == Clean([line] + y)
  {
    CleanAppend([line], x);
    CleanAppend([line], y);
  }

  /** One step of `CleanSplitRuns`: the first field is shared, and what follows the
      first separator cleans alike once its leading separators are dropped. */
  lemma CleanSplitRunsStep(s: string, sep: char)
    requires sep in s
    requires var d := DropLeading(s[IndexOf(s, sep) + 1..], sep);
      Clean(SplitRuns(d, sep)) == Clean(Split(d, sep))
    ensures Clean(SplitRuns(s, sep)) == Clean(Split(s, sep))
  {
    var i := IndexOf(s, sep);
    var rest := s[i + 1..];
    SplitAtFirst(s, sep);
    SplitRunsAtFirst(s, sep);
    CleanSplitDropLeading(rest, sep);
    CleanBehind(s[..i], SplitRuns(DropLeading(rest, sep), sep), Split(rest, sep));
  }

  /** Splitting on single separators or on runs of them yields the same
      non-blank trimmed lines. */
  lemma {:induction false} CleanSplitRuns(s: string, sep: char)
    ensures Clean(SplitRuns(s, sep)) == Clean(Split(s, sep))
    decreases |s|
  {
    if sep in s {
      var d := DropLeading(s[IndexOf(s, sep) + 1..], sep);
      assert |d| < |s|;
      CleanSplitRuns(d, sep);
      CleanSplitRunsStep(s, sep);
    } else {
      assert SplitRuns(s, sep) == Split(s, sep);
    }
  }


  // ---------------------------------------------------------------------------
  // ASCII toLowerCase and includes

  function LowerChar(c: char): (r: char)
    ensures 'A' <= c <= 'Z' ==> r as int == c as int + 32
    ensures !('A' <= c <= 'Z') ==> r == c
  {
    if 'A' <= c <= 'Z' then (c as int + 32) as char else c
  }

  /** `s.toLowerCase()` restricted to ASCII letters. */
  function Lower(s: string): (r: string)
    ensures |r| == |s|
    ensures forall k :: 0 <= k < |s| ==> r[k] == LowerChar(s[k])
  {
    if |s| == 0 then [] else [LowerChar(s[0])] + Lower(s[1..])
  }

  /** Lowercasing is idempotent and leaves no upper-case ASCII letter. */
  lemma LowerIdempotent(s: string)
    ensures Lower(Lower(s)) == Lower(s)
    ensures forall k :: 0 <= k < |s| ==> !('A' <= Lower(s)[k] <= 'Z')
  {
  }

  /** Lowercasing commutes with taking a prefix. */
  lemma LowerPrefix(s: string, n: nat)
    requires n <= |s|
    ensures Lower(s[..n]) == Lower(s)[..n]
  {
  }

  /** `h.includes(n)`: `n` occurs in `h` at some offset. */
  function Contains(h: string, n: string): (b: bool)
    ensures |n| == 0 ==> b
    ensures b ==> |n| <= |h|
    decreases |h|
  {
    (|n| <= |h| && h[..|n|] == n) || (|h| > 0 && Contains(h[1..], n))
  }

  /** `includes` by its meaning: `n` is some infix of `h`. */
  lemma {:induction false} ContainsAt(h: string, n: string, i: nat)
    requires i + |n| <= |h| && h[i..i + |n|] == n
    ensures Contains(h, n)
    decreases i
  {
    if i > 0 {
      assert h[1..][i - 1..i - 1 + |n|] == h[i..i + |n|];
      ContainsAt(h[1..], n, i - 1);
    }
  }

  /** The converse of `ContainsAt`: when `includes` holds, the needle occurs at some
      offset, returned as `i`. */
  lemma {:induction false} ContainsOffset(h: string, n: string) returns (i: nat)
    requires Contains(h, n)
    ensures i + |n| <= |h| && h[i..i + |n|] == n
    decreases |h|
  {
    if |n| <= |h| && h[..|n|] == n {
      i := 0;
    } else {
      var j := ContainsOffset(h[1..], n);
      i := j + 1;
      assert h[1..][j..j + |n|] == h[i..i + |n|];
    }
  }

  /** If `h` contains `n`, it contains every prefix of `n`. */
  lemma {:induction false} ContainsPrefix(h: string, n: string, m: nat)
    requires m <= |n|
    requires Contains(h, n)
    ensures Contains(h, n[..m])
    decreases |h|
  {
    if |n| <= |h| && h[..|n|] == n {
      assert h[..m] == n[..m];
    } else {
      ContainsPrefix(h[1..], n, m);
    }
  }
}
