/**
  String helpers with JavaScript semantics, as used by the itinerary editor:
  the `\s` character class, `String.prototype.trim`, `split` on a one-character
  separator, `Array.prototype.join`, and `replace(/\s+/g, "_")`.
  Strings are sequences of Unicode scalar values; no normalisation is modelled.
*/
module Text {

  /** A character matched by the JavaScript `\s` class. `String.prototype.trim`
      strips exactly the same set: ECMAScript WhiteSpace (TAB, VT, FF, SP, NBSP,
      ZWNBSP and the Zs category) and LineTerminator (LF, CR, LS, PS). */
  predicate IsSpace(c: char) {
    || c == '\t' || c == '\n' || c == '\U{000B}' || c == '\U{000C}' || c == '\r'
    || c == ' ' || c == '\U{00A0}' || c == '\U{1680}'
    || ('\U{2000}' <= c <= '\U{200A}')
    || c == '\U{2028}' || c == '\U{2029}' || c == '\U{202F}' || c == '\U{205F}'
    || c == '\U{3000}' || c == '\U{FEFF}'
  }

  predicate AllSpace(s: string) {
    forall i :: 0 <= i < |s| ==> IsSpace(s[i])
  }

  predicate NoSpace(s: string) {
    forall i :: 0 <= i < |s| ==> !IsSpace(s[i])
  }

  /** Neither end of `s` is whitespace. */
  predicate IsTrimmed(s: string) {
    s == [] || (!IsSpace(s[0]) && !IsSpace(s[|s| - 1]))
  }

  /** Number of occurrences of `c` in `s`. */
  function Occurrences(s: string, c: char): nat {
    if s == [] then 0 else (if s[0] == c then 1 else 0) + Occurrences(s[1..], c)
  }

  // ---------------------------------------------------------------------------
  // trim

  /** Length of the maximal whitespace prefix of `s`. */
  function LeadingSpaces(s: string): (n: nat)
    ensures n <= |s|
    ensures AllSpace(s[..n])
    ensures n < |s| ==> !IsSpace(s[n])
  {
    if s != [] && IsSpace(s[0]) then 1 + LeadingSpaces(s[1..]) else 0
  }

  /** Length of the maximal whitespace suffix of `s`. */
  function TrailingSpaces(s: string): (n: nat)
    ensures n <= |s|
    ensures AllSpace(s[|s| - n..])
    ensures n < |s| ==> !IsSpace(s[|s| - n - 1])
  {
    if s != [] && IsSpace(s[|s| - 1]) then 1 + TrailingSpaces(s[..|s| - 1]) else 0
  }

  /** `r` is `s` with the first `i` characters and some final characters cut
      off, and everything cut off is whitespace. */
  predicate StripsTo(s: string, r: string, i: int) {
    && 0 <= i <= i + |r| <= |s|
    && r == s[i..i + |r|]
    && AllSpace(s[..i])
    && AllSpace(s[i + |r|..])
  }

  /** `String.prototype.trim`: removes whitespace from both ends. */
  function Trim(s: string): (r: string)
    ensures IsTrimmed(r)
    ensures StripsTo(s, r, LeadingSpaces(s))
    ensures IsTrimmed(s) ==> r == s
  {
    var a := LeadingSpaces(s);
    var t := s[a..];
    var b := TrailingSpaces(t);
    var r := t[..|t| - b];
    assert s[a + |r|..] == t[|t| - b..];
    assert r != [] ==> r[|r| - 1] == t[|t| - b - 1];
    r
  }

  lemma TrimIdempotent(s: string)
    ensures Trim(Trim(s)) == Trim(s)
  {
  }

  /** Trimming a string that is all whitespace gives the empty string. */
  lemma TrimAllSpace(s: string)
    requires AllSpace(s)
    ensures Trim(s) == []
  {
    assert LeadingSpaces(s) == |s|;
  }

  lemma {:induction false} TrailingSpacesStop(a: string, b: string)
    requires a != [] && !IsSpace(a[|a| - 1])
    requires AllSpace(b)
    ensures TrailingSpaces(a + b) == |b|
    decreases |b|
  {
    if b == [] {
      assert a + b == a;
    } else {
      var s := a + b;
      assert s[..|s| - 1] == a + b[..|b| - 1];
      TrailingSpacesStop(a, b[..|b| - 1]);
    }
  }

  /** Whitespace around an already trimmed string is exactly what `trim` removes. */
  lemma TrimPadded(pre: string, x: string, post: string)
    requires AllSpace(pre) && AllSpace(post) && IsTrimmed(x)
    ensures Trim(pre + x + post) == x
  {
    var s := pre + x + post;
    if x == [] {
      assert s == pre + post;
      TrimAllSpace(s);
    } else {
      assert s == pre + (x + post);
      LeadingSpacesStop(pre, x + post);
      assert s[|pre|..] == x + post;
      TrailingSpacesStop(x, post);
    }
  }

  // ---------------------------------------------------------------------------
  // split and join

  /** `Array.prototype.join(glue)`: the parts with `glue` between neighbours. */
  function Join(parts: seq<string>, glue: string): string {
    if parts == [] then []
    else if |parts| == 1 then parts[0]
    else parts[0] + glue + Join(parts[1..], glue)
  }

  /** `String.prototype.split(sep)` for a one-character separator: the maximal
      separator-free pieces between occurrences of `sep`, including empty ones. */
  function Split(s: string, sep: char): (parts: seq<string>)
    ensures |parts| == Occurrences(s, sep) + 1
    ensures forall k :: 0 <= k < |parts| ==> sep !in parts[k]
    ensures Join(parts, [sep]) == s
  {
    if s == [] then [[]]
    else if s[0] == sep then
      var rest := Split(s[1..], sep);
      assert s == [sep] + s[1..];
      [[]] + rest
    else
      var rest := Split(s[1..], sep);
      var parts := [[s[0]] + rest[0]] + rest[1..];
      assert parts[1..] == rest[1..];
      assert s == [s[0]] + s[1..];
      parts
  }

  /** Splitting a separator-free piece followed by a separator. */
  lemma {:induction false} SplitCons(p: string, sep: char, t: string)
    requires sep !in p
    ensures Split(p + [sep] + t, sep) == [p] + Split(t, sep)
    decreases |p|
  {
    if p == [] {
      assert [] + [sep] + t == [sep] + t;
      assert ([sep] + t)[1..] == t;
    } else {
      var s := p + [sep] + t;
      assert s[0] == p[0] && s[1..] == p[1..] + [sep] + t;
      SplitCons(p[1..], sep, t);
      assert [p[0]] + p[1..] == p;
    }
  }

  /** Splitting a string that holds no separator gives that string alone. */
  lemma {:induction false} SplitNoSeparator(s: string, sep: char)
    requires sep !in s
    ensures Split(s, sep) == [s]
    decreases |s|
  {
    if s != [] {
      SplitNoSeparator(s[1..], sep);
      assert [s[0]] + s[1..] == s;
    }
  }

  /** Joining separator-free parts and splitting again gives the parts back. */
  lemma {:induction false} SplitJoin(parts: seq<string>, sep: char)
    requires |parts| >= 1
    requires forall k :: 0 <= k < |parts| ==> sep !in parts[k]
    ensures Split(Join(parts, [sep]), sep) == parts
    decreases |parts|
  {
    if |parts| == 1 {
      SplitNoSeparator(parts[0], sep);
    } else {
      SplitJoin(parts[1..], sep);
      SplitCons(parts[0], sep, Join(parts[1..], [sep]));
      assert [parts[0]] + parts[1..] == parts;
    }
  }

  // ---------------------------------------------------------------------------
  // replace(/\s+/g, "_")

  /** `s.replace(/\s+/g, "_")`: scanning left to right, each maximal run of
      whitespace is replaced by one underscore. */
  function CollapseSpaces(s: string): (r: string)
    ensures NoSpace(r)
    ensures |r| <= |s|
    ensures s != [] ==> r != []
    decreases |s|
  {
    if s == [] then []
    else if IsSpace(s[0]) then "_" + CollapseSpaces(s[LeadingSpaces(s)..])
    else [s[0]] + CollapseSpaces(s[1..])
  }

  /** A string without whitespace is left as it is. */
  lemma {:induction false} CollapseNoSpace(s: string)
    requires NoSpace(s)
    ensures CollapseSpaces(s) == s
    decreases |s|
  {
    if s != [] {
      CollapseNoSpace(s[1..]);
    }
  }

  lemma CollapseIdentity(s: string)
    ensures NoSpace(s) ==> CollapseSpaces(s) == s
  {
    if NoSpace(s) {
      CollapseNoSpace(s);
    }
  }

  /** A non-empty run of whitespace becomes exactly one underscore. */
  lemma CollapseRun(w: string)
    requires w != [] && AllSpace(w)
    ensures CollapseSpaces(w) == "_"
  {
    assert LeadingSpaces(w) == |w|;
  }

  /** The replacement works piecewise whenever the cut does not fall inside a
      run of whitespace. */
  lemma {:induction false} CollapseAppend(a: string, b: string)
    requires a == [] || b == [] || !IsSpace(a[|a| - 1]) || !IsSpace(b[0])
    ensures CollapseSpaces(a + b) == CollapseSpaces(a) + CollapseSpaces(b)
    decreases |a|
  {
    if a == [] {
      assert a + b == b;
    } else if b == [] {
      assert a + b == a;
    } else if IsSpace(a[0]) {
      if LeadingSpaces(a) == |a| {
        CollapseRunThen(a, b);
      } else {
        var a' := a[LeadingSpaces(a)..];
        assert a'[|a'| - 1] == a[|a| - 1];
        CollapseAppend(a', b);
        CollapseRunWithin(a, b);
      }
    } else {
      var a' := a[1..];
      assert a' != [] ==> a'[|a'| - 1] == a[|a| - 1];
      CollapseAppend(a', b);
      CollapseCharThen(a, b);
    }
  }

  /** `a` is one whitespace run and `b` starts with a non-space. */
  lemma CollapseRunThen(a: string, b: string)
    requires a != [] && AllSpace(a)
    requires b != [] && !IsSpace(b[0])
    ensures CollapseSpaces(a + b) == CollapseSpaces(a) + CollapseSpaces(b)
  {
    LeadingSpacesStop(a, b);
    assert (a + b)[0] == a[0];
    assert (a + b)[|a|..] == b;
    CollapseRun(a);
  }

  /** The whitespace run at the start of `a` ends inside `a`. */
  lemma CollapseRunWithin(a: string, b: string)
    requires a != [] && IsSpace(a[0]) && LeadingSpaces(a) < |a|
    requires var a' := a[LeadingSpaces(a)..];
      CollapseSpaces(a' + b) == CollapseSpaces(a') + CollapseSpaces(b)
    ensures CollapseSpaces(a + b) == CollapseSpaces(a) + CollapseSpaces(b)
  {
    var n := LeadingSpaces(a);
    LeadingSpacesPrefix(a, b);
    DropAppend(a, b, n);
    assert CollapseSpaces(a + b) == "_" + CollapseSpaces(a[n..] + b);
    assert CollapseSpaces(a) == "_" + CollapseSpaces(a[n..]);
    Associative("_", CollapseSpaces(a[n..]), CollapseSpaces(b));
  }

  /** `a` starts with a non-space character. */
  lemma CollapseCharThen(a: string, b: string)
    requires a != [] && !IsSpace(a[0])
    requires CollapseSpaces(a[1..] + b) == CollapseSpaces(a[1..]) + CollapseSpaces(b)
    ensures CollapseSpaces(a + b) == CollapseSpaces(a) + CollapseSpaces(b)
  {
    DropAppend(a, b, 1);
    assert CollapseSpaces(a + b) == [a[0]] + CollapseSpaces(a[1..] + b);
    assert CollapseSpaces(a) == [a[0]] + CollapseSpaces(a[1..]);
    Associative([a[0]], CollapseSpaces(a[1..]), CollapseSpaces(b));
  }

  lemma DropAppend<T>(a: seq<T>, b: seq<T>, n: nat)
    requires n <= |a|
    ensures (a + b)[n..] == a[n..] + b
    ensures a != [] ==> (a + b)[0] == a[0]
  {
  }

  lemma Associative<T>(x: seq<T>, y: seq<T>, z: seq<T>)
    ensures x + (y + z) == (x + y) + z
  {
  }

  /** Words separated by single spaces come out separated by underscores. */
  lemma {:induction false} CollapseWords(words: seq<string>)
    requires |words| >= 1
    requires forall k :: 0 <= k < |words| ==> words[k] != [] && NoSpace(words[k])
    ensures CollapseSpaces(Join(words, " ")) == Join(words, "_")
    decreases |words|
  {
    if |words| == 1 {
      CollapseNoSpace(words[0]);
    } else {
      CollapseWords(words[1..]);
      JoinHead(words[1..], " ");
      CollapseWordThenSpace(words[0], Join(words[1..], " "));
    }
  }

  /** A word, one space, and text starting with a non-space. */
  lemma CollapseWordThenSpace(w: string, rest: string)
    requires w != [] && NoSpace(w)
    requires rest != [] && !IsSpace(rest[0])
    ensures CollapseSpaces(w + " " + rest) == w + "_" + CollapseSpaces(rest)
  {
    assert w + " " + rest == w + (" " + rest);
    CollapseAppend(w, " " + rest);
    CollapseNoSpace(w);
    CollapseAppend(" ", rest);
    CollapseRun(" ");
  }

  lemma CollapseThreeWords(a: string, b: string, c: string)
    requires a != [] && b != [] && c != []
    requires NoSpace(a) && NoSpace(b) && NoSpace(c)
    ensures CollapseSpaces(a + " " + b + " " + c) == a + "_" + b + "_" + c
  {
    var rest := b + " " + c;
    Regroup(a, " ", b, " ", c);
    DropAppend(b, " " + c, 0);
    CollapseWordThenSpace(b, c);
    CollapseNoSpace(c);
    CollapseWordThenSpace(a, rest);
    Regroup(a, "_", b, "_", c);
  }

  lemma Regroup<T>(a: seq<T>, s: seq<T>, b: seq<T>, t: seq<T>, c: seq<T>)
    ensures a + s + b + t + c == a + s + (b + t + c)
  {
  }

  lemma JoinHead(parts: seq<string>, glue: string)
    requires |parts| >= 1 && parts[0] != []
    ensures Join(parts, glue) != [] && Join(parts, glue)[0] == parts[0][0]
  {
  }

  lemma {:induction false} LeadingSpacesPrefix(a: string, b: string)
    requires LeadingSpaces(a) < |a|
    ensures LeadingSpaces(a + b) == LeadingSpaces(a)
    decreases |a|
  {
    if IsSpace(a[0]) {
      assert (a + b)[1..] == a[1..] + b;
      LeadingSpacesPrefix(a[1..], b);
    }
  }

  lemma {:induction false} LeadingSpacesStop(a: string, b: string)
    requires AllSpace(a)
    requires b != [] && !IsSpace(b[0])
    ensures LeadingSpaces(a + b) == |a|
    decreases |a|
  {
    if a == [] {
      assert a + b == b;
    } else {
      var s := a + b;
      assert s[0] == a[0] && IsSpace(s[0]);
      assert s[1..] == a[1..] + b;
      assert AllSpace(a[1..]);
      LeadingSpacesStop(a[1..], b);
      assert LeadingSpaces(s) == 1 + LeadingSpaces(s[1..]);
    }
  }
}
