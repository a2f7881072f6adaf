/** String helpers with the semantics of the JavaScript built-ins the system
    uses: `String.prototype.split` with a one-character separator, `Array.join`,
    the white-space class of `trim()` and of the regular expression `\s`, and
    `replace(/\s+/g, '_')`. */
module Text {

  /** `s.split(c)`: the maximal runs between occurrences of `c`, so there is
      always at least one (possibly empty) segment. */
  function Split(s: string, c: char): (parts: seq<string>)
    ensures |parts| >= 1
  {
    if s == [] then [[]]
    else
      var rest := Split(s[1..], c);
      if s[0] == c then [[]] + rest else [[s[0]] + rest[0]] + rest[1..]
  }

  /** `parts.join(c)`. */
  function Join(parts: seq<string>, c: char): string
  {
    if |parts| == 0 then []
    else if |parts| == 1 then parts[0]
    else parts[0] + [c] + Join(parts[1..], c)
  }

  /** No segment of a split contains the separator. */
  lemma {:induction false} SplitSegmentsFree(s: string, c: char)
    ensures forall i :: 0 <= i < |Split(s, c)| ==> c !in Split(s, c)[i]
  {
    if s != [] {
      SplitSegmentsFree(s[1..], c);
    }
  }

  /** There is more than one segment exactly when the separator occurs. */
  lemma {:induction false} SplitCount(s: string, c: char)
    ensures |Split(s, c)| > 1 <==> c in s
  {
    if s != [] {
      SplitCount(s[1..], c);
      assert c in s <==> s[0] == c || c in s[1..];
    }
  }

  /** Every segment is made of characters of the text. */
  lemma {:induction false} SplitSegmentChars(s: string, c: char, i: nat, ch: char)
    requires i < |Split(s, c)| && ch in Split(s, c)[i]
    ensures ch in s
  {
    if s != [] {
      var rest := Split(s[1..], c);
      if s[0] == c {
        if i > 0 {
          SplitSegmentChars(s[1..], c, i - 1, ch);
        }
      } else if i == 0 {
        if ch != s[0] {
          SplitSegmentChars(s[1..], c, 0, ch);
        }
      } else {
        SplitSegmentChars(s[1..], c, i, ch);
      }
    }
  }

  /** Text without the separator splits into itself. */
  lemma {:induction false} SplitNoSeparator(s: string, c: char)
    requires c !in s
    ensures Split(s, c) == [s]
  {
    if s != [] {
      SplitNoSeparator(s[1..], c);
      assert [s[0]] + s[1..] == s;
    }
  }

  /** The first segment ends at the first separator. */
  lemma {:induction false} SplitAtFirst(a: string, c: char, b: string)
    requires c !in a
    ensures Split(a + [c] + b, c) == [a] + Split(b, c)
  {
    if a == [] {
      assert a + [c] + b == [c] + b;
      assert ([c] + b)[1..] == b;
    } else {
      assert (a + [c] + b)[1..] == a[1..] + [c] + b;
      SplitAtFirst(a[1..], c, b);
      assert [a[0]] + a[1..] == a;
    }
  }

  lemma JoinPrepend(x: char, parts: seq<string>, c: char)
    requires |parts| >= 1
    ensures Join([[x] + parts[0]] + parts[1..], c) == [x] + Join(parts, c)
  {
    var q := [[x] + parts[0]] + parts[1..];
    assert q[1..] == parts[1..];
  }

  /** Joining the segments of a split gives back the text. */
  lemma {:induction false} JoinSplit(s: string, c: char)
    ensures Join(Split(s, c), c) == s
  {
    if s != [] {
      var rest := Split(s[1..], c);
      JoinSplit(s[1..], c);
      if s[0] == c {
        assert ([[]] + rest)[1..] == rest;
        assert Join([[]] + rest, c) == [] + [c] + Join(rest, c);
      } else {
        JoinPrepend(s[0], rest, c);
      }
      assert [s[0]] + s[1..] == s;
    }
  }

  /** Splitting a join of separator-free segments gives back the segments. */
  lemma {:induction false} SplitJoin(parts: seq<string>, c: char)
    requires |parts| >= 1
    requires forall i :: 0 <= i < |parts| ==> c !in parts[i]
    ensures Split(Join(parts, c), c) == parts
  {
    if |parts| == 1 {
      SplitNoSeparator(parts[0], c);
    } else {
      SplitJoin(parts[1..], c);
      SplitAtFirst(parts[0], c, Join(parts[1..], c));
      assert [parts[0]] + parts[1..] == parts;
    }
  }

  /** The characters JavaScript's `trim()` removes and `\s` matches: the
      ECMAScript WhiteSpace and LineTerminator productions. */
  predicate IsWhitespace(ch: char)
  {
    || ch == '\t' || ch == '\n' || ch == '\U{000B}' || ch == '\U{000C}' || ch == '\r'
    || ch == ' ' || ch == '\U{00A0}' || ch == '\U{1680}'
    || ('\U{2000}' <= ch <= '\U{200A}')
    || ch == '\U{2028}' || ch == '\U{2029}' || ch == '\U{202F}' || ch == '\U{205F}'
    || ch == '\U{3000}' || ch == '\U{FEFF}'
  }

  /** `s.trim().length === 0`. */
  predicate Blank(s: string)
  {
    forall i :: 0 <= i < |s| ==> IsWhitespace(s[i])
  }

  /** `s.replace(/\s+/g, '_')`: every maximal run of white space becomes a
      single underscore. A white-space character followed by another one
      belongs to the same run and is dropped; the last one of a run is the
      one that becomes the underscore. */
  function UnderscoreRuns(s: string): string
  {
    if s == [] then []
    else if IsWhitespace(s[0]) then
      if |s| > 1 && IsWhitespace(s[1]) then UnderscoreRuns(s[1..]) else "_" + UnderscoreRuns(s[1..])
    else [s[0]] + UnderscoreRuns(s[1..])
  }

  /** The result holds no white space at all. */
  lemma {:induction false} UnderscoreRunsNoWhitespace(s: string)
    ensures forall i :: 0 <= i < |UnderscoreRuns(s)| ==> !IsWhitespace(UnderscoreRuns(s)[i])
  {
    if s != [] {
      UnderscoreRunsNoWhitespace(s[1..]);
    }
  }

  /** Text without white space is left as it is. */
  lemma {:induction false} UnderscoreRunsIdentity(s: string)
    requires forall i :: 0 <= i < |s| ==> !IsWhitespace(s[i])
    ensures UnderscoreRuns(s) == s
  {
    if s != [] {
      UnderscoreRunsIdentity(s[1..]);
      assert [s[0]] + s[1..] == s;
    }
  }

  /** One run of white space followed by text that does not start with white
      space becomes one underscore. */
  lemma {:induction false} UnderscoreRunsRun(w: string, b: string)
    requires w != [] && Blank(w)
    requires b == [] || !IsWhitespace(b[0])
    ensures UnderscoreRuns(w + b) == "_" + UnderscoreRuns(b)
  {
    var wb := w + b;
    assert wb[0] == w[0] && wb[1..] == w[1..] + b;
    if |w| == 1 {
      assert w[1..] + b == b;
      if b != [] {
        assert wb[1] == b[0];
      }
    } else {
      assert wb[1] == w[1];
      UnderscoreRunsRun(w[1..], b);
    }
  }

  /** A prefix that ends in a non-white-space character is rewritten on its
      own: no run of white space crosses its end. */
  lemma {:induction false} UnderscoreRunsConcat(a: string, t: string)
    requires a == [] || !IsWhitespace(a[|a| - 1])
    ensures UnderscoreRuns(a + t) == UnderscoreRuns(a) + UnderscoreRuns(t)
  {
    if a == [] {
      assert a + t == t;
    } else {
      var at := a + t;
      assert at[0] == a[0] && at[1..] == a[1..] + t;
      UnderscoreRunsConcat(a[1..], t);
      if IsWhitespace(a[0]) {
        assert at[1] == a[1];
      }
    }
  }
}
