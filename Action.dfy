/** A reference to a reusable GitHub Actions action, `owner/name[@version]`
    (src/action.ts). The class there only stores its three fields, so it is a
    value here. */
module ActionRef {
  import opened Wrappers
  import opened Text

  /** `new Action(owner, name, version)` keeps the three arguments verbatim. */
  datatype Action = Action(owner: string, name: string, version: Option<string>)

  /** `toString()`: the version is appended only when it is a non-empty string,
      so an empty version is dropped. */
  function ToString(a: Action): (s: string)
    ensures |s| >= |a.owner| + 1 + |a.name|
    ensures s[..|a.owner|] == a.owner && s[|a.owner|] == '/'
    ensures s[|a.owner| + 1..|a.owner| + 1 + |a.name|] == a.name
    ensures |s| > |a.owner| + 1 + |a.name| <==> a.version.Some? && a.version.value != ""
  {
    if a.version.Some? && a.version.value != "" then a.owner + "/" + a.name + "@" + a.version.value
    else a.owner + "/" + a.name
  }

  /** `Action.fromString(s)`: owner and name are the first two `/`-segments of
      the text before the first `@`, and the version is the text between the
      first and the second `@`. The source never throws; when the text before
      the first `@` has no `/` it builds an action whose name is `undefined`,
      which is `None` here. */
  function FromString(s: string): (r: Option<Action>)
    ensures r.Some? <==> '/' in Split(s, '@')[0]
    ensures r.Some? ==> (r.value.version.Some? <==> '@' in s)
    ensures r.Some? ==> '/' !in r.value.owner && '@' !in r.value.owner
    ensures r.Some? ==> '/' !in r.value.name && '@' !in r.value.name
    ensures r.Some? && r.value.version.Some? ==> '@' !in r.value.version.value
  {
    var parts := Split(s, '@');
    var segs := Split(parts[0], '/');
    SplitCount(parts[0], '/');
    SplitCount(s, '@');
    SplitSegmentsFree(s, '@');
    SplitSegmentsFree(parts[0], '/');
    if |segs| < 2 then None
    else
      OwnerNameFree(parts[0], segs);
      Some(Action(segs[0], segs[1], if |parts| > 1 then Some(parts[1]) else None))
  }

  lemma OwnerNameFree(head: string, segs: seq<string>)
    requires '@' !in head && segs == Split(head, '/') && |segs| >= 2
    ensures '@' !in segs[0] && '@' !in segs[1]
  {
    if '@' in segs[0] {
      SplitSegmentChars(head, '/', 0, '@');
    }
    if '@' in segs[1] {
      SplitSegmentChars(head, '/', 1, '@');
    }
  }

  /** The actions whose text form parses back to them: no `/` or `@` in owner
      and name, and a version that is absent or non-empty without `@`. */
  predicate WellFormed(a: Action)
  {
    && '/' !in a.owner && '@' !in a.owner
    && '/' !in a.name && '@' !in a.name
    && (a.version.Some? ==> a.version.value != "" && '@' !in a.version.value)
  }

  /** Round trip from actions: `fromString(a.toString())` is `a`. */
  lemma FormatThenParse(a: Action)
    requires WellFormed(a)
    ensures FromString(ToString(a)) == Some(a)
  {
    var head := a.owner + "/" + a.name;
    assert head == a.owner + ['/'] + a.name;
    SplitAtFirst(a.owner, '/', a.name);
    SplitNoSeparator(a.name, '/');
    assert '@' !in head;
    if a.version.Some? {
      var v := a.version.value;
      assert ToString(a) == head + ['@'] + v;
      SplitAtFirst(head, '@', v);
      SplitNoSeparator(v, '@');
    } else {
      SplitNoSeparator(head, '@');
    }
  }

  /** The strings in canonical form: `o/n` or `o/n@v` with a non-empty `v`,
      where `o` and `n` hold no `/` or `@` and `v` no `@`. */
  predicate Canonical(s: string)
  {
    var parts := Split(s, '@');
    && |parts| <= 2
    && (|parts| == 2 ==> parts[1] != "")
    && |Split(parts[0], '/')| == 2
  }

  /** Round trip from text: `fromString(s).toString()` is `s`. */
  lemma ParseThenFormat(s: string)
    requires Canonical(s)
    ensures FromString(s).Some?
    ensures ToString(FromString(s).value) == s
  {
    var parts := Split(s, '@');
    var segs := Split(parts[0], '/');
    JoinSplit(s, '@');
    JoinSplit(parts[0], '/');
    assert segs[1..] == [segs[1]];
    assert parts[0] == segs[0] + "/" + segs[1];
    if |parts| == 2 {
      assert parts[1..] == [parts[1]];
      assert s == parts[0] + "@" + parts[1];
    }
  }

  /** Every canonical string comes from a well-formed action, and the parse of
      a well-formed action's text is canonical. */
  lemma CanonicalIffWellFormed(s: string)
    ensures Canonical(s) ==> FromString(s).Some? && WellFormed(FromString(s).value)
    ensures forall a :: WellFormed(a) && ToString(a) == s ==> Canonical(s)
  {
    if Canonical(s) {
      ParseThenFormat(s);
    }
    forall a | WellFormed(a) && ToString(a) == s
      ensures Canonical(s)
    {
      FormatThenParse(a);
      var head := a.owner + "/" + a.name;
      assert head == a.owner + ['/'] + a.name;
      SplitAtFirst(a.owner, '/', a.name);
      SplitNoSeparator(a.name, '/');
      if a.version.Some? {
        SplitAtFirst(head, '@', a.version.value);
        SplitNoSeparator(a.version.value, '@');
        assert s == head + ['@'] + a.version.value;
      } else {
        SplitNoSeparator(head, '@');
      }
    }
  }
}
