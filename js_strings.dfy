/**
 * The JavaScript string built-ins and operators that the user reconciliation
 * code relies on: `String.prototype.split` with a one-character separator,
 * `String.prototype.trim`, and the `||` and `??` operators on optional strings.
 *
 * Strings are sequences of Unicode scalar values, not JavaScript's UTF-16
 * code units. The characters matched here ('@' and the whitespace set) are
 * all in the Basic Multilingual Plane and none is a surrogate, so splitting
 * and trimming give the same results; lone surrogates, which JavaScript
 * strings may hold, cannot be represented.
 */
module JsStrings {
  import opened Wrappers

  /** The characters `trim` removes: WhiteSpace (section 12.2 of ECMA-262)
      and LineTerminator (section 12.3 of ECMA-262). */
  predicate IsSpace(c: char) {
    var n := c as int;
    || n == 0x09 || n == 0x0B || n == 0x0C || n == 0x20 || n == 0xA0
    || n == 0xFEFF || n == 0x1680 || (0x2000 <= n <= 0x200A)
    || n == 0x202F || n == 0x205F || n == 0x3000
    || n == 0x0A || n == 0x0D || n == 0x2028 || n == 0x2029
  }

  /** Every character of `s` is whitespace (vacuously so for ""). */
  predicate AllSpace(s: string) {
    forall i :: 0 <= i < |s| ==> IsSpace(s[i])
  }

  // ---------------------------------------------------------------------
  // `||` and `??` on a string that may be null

  /** `x || d`: `x` when it is truthy, i.e. present and non-empty; else `d`. */
  function Or(x: Option<string>, d: string): string {
    if x.Some? && x.value != "" then x.value else d
  }

  /** `x ?? d`: `x` when it is neither null nor undefined; else `d`. */
  function Coalesce(x: Option<string>, d: string): string {
    match x
    case Some(v) => v
    case None => d
  }

  /** The two operators disagree exactly on a present empty string with a
      non-empty fallback: `"" ?? d` is `""`, `"" || d` is `d`. */
  lemma {:induction false} OrCoalesceDiffer(x: Option<string>, d: string)
    ensures Or(x, d) != Coalesce(x, d) <==> x == Some("") && d != ""
  {
  }

  // ---------------------------------------------------------------------
  // `s.split(sep)` for a one-character separator

  /** The pieces of `s` between occurrences of `sep`, left to right; as in
      JavaScript there is always at least one piece ("".split("@") is [""]). */
  function Split(s: string, sep: char): (r: seq<string>)
    ensures |r| >= 1
    ensures forall i :: 0 <= i < |r| ==> sep !in r[i]
    ensures |r[0]| <= |s| && r[0] == s[..|r[0]|]
    ensures |r[0]| < |s| ==> s[|r[0]|] == sep
    decreases |s|
  {
    if s == [] then [""]
    else if s[0] == sep then [""] + Split(s[1..], sep)
    else
      var rest := Split(s[1..], sep);
      [[s[0]] + rest[0]] + rest[1..]
  }

  /** `parts.join(sep)`, the inverse of `Split`. */
  function Join(parts: seq<string>, sep: char): string {
    if parts == [] then ""
    else if |parts| == 1 then parts[0]
    else parts[0] + [sep] + Join(parts[1..], sep)
  }

  /** Splitting loses nothing: joining the pieces back gives the input. */
  lemma {:induction false} JoinSplit(s: string, sep: char)
    ensures Join(Split(s, sep), sep) == s
    decreases |s|
  {
    if s == [] {
    } else if s[0] == sep {
      JoinSplit(s[1..], sep);
      assert s == [sep] + s[1..];
    } else {
      JoinSplit(s[1..], sep);
      var rest := Split(s[1..], sep);
      assert s == [s[0]] + s[1..];
      if |rest| > 1 {
        assert Join(Split(s, sep), sep) == [s[0]] + rest[0] + [sep] + Join(rest[1..], sep);
      }
    }
  }

  /** Joining pieces that do not contain the separator and splitting again
      gives the same pieces. */
  lemma {:induction false} SplitJoin(parts: seq<string>, sep: char)
    requires |parts| >= 1
    requires forall i :: 0 <= i < |parts| ==> sep !in parts[i]
    ensures Split(Join(parts, sep), sep) == parts
    decreases |parts|, |parts[0]|
  {
    var p := parts[0];
    if |parts| == 1 {
      SplitNoSeparator(p, sep);
    } else if p == "" {
      var tail := parts[1..];
      SplitJoin(tail, sep);
      assert Join(parts, sep) == [sep] + Join(tail, sep);
      assert ([sep] + Join(tail, sep))[1..] == Join(tail, sep);
      assert parts == [""] + tail;
    } else {
      var shorter := [p[1..]] + parts[1..];
      DropFirstKeepsSeparatorFree(parts, sep);
      SplitJoin(shorter, sep);
      var j := Join(parts, sep);
      assert shorter[1..] == parts[1..];
      assert Join(shorter, sep) == p[1..] + [sep] + Join(parts[1..], sep);
      assert j == [p[0]] + Join(shorter, sep);
      assert j[1..] == Join(shorter, sep);
      assert j[0] == p[0];
      assert p[0] != sep by { assert p[0] in p; }
      assert Split(j, sep) == [[p[0]] + shorter[0]] + shorter[1..];
      assert [p[0]] + p[1..] == p;
    }
  }

  /** Dropping the first character of the first piece keeps every piece
      free of the separator. */
  lemma DropFirstKeepsSeparatorFree(parts: seq<string>, sep: char)
    requires |parts| >= 2 && parts[0] != ""
    requires forall i :: 0 <= i < |parts| ==> sep !in parts[i]
    ensures var shorter := [parts[0][1..]] + parts[1..];
      forall i :: 0 <= i < |shorter| ==> sep !in shorter[i]
  {
    var shorter := [parts[0][1..]] + parts[1..];
    forall i | 0 <= i < |shorter| ensures sep !in shorter[i] {
      if i == 0 {
        assert forall j :: 0 <= j < |parts[0][1..]| ==> parts[0][1..][j] == parts[0][j + 1];
      } else {
        assert shorter[i] == parts[i];
      }
    }
  }

  /** A string without the separator splits into itself alone. */
  lemma {:induction false} SplitNoSeparator(s: string, sep: char)
    requires sep !in s
    ensures Split(s, sep) == [s]
    decreases |s|
  {
    if s != [] {
      assert s[0] != sep by { assert s[0] in s; }
      assert sep !in s[1..] by {
        forall j | 0 <= j < |s[1..]| ensures s[1..][j] != sep { assert s[1..][j] == s[j + 1]; }
      }
      SplitNoSeparator(s[1..], sep);
      assert [s[0]] + s[1..] == s;
    }
  }

  /** The first piece is the text before the first occurrence of the
      separator: if `s[k]` is the first `sep` then `split(sep)[0]` is `s[..k]`. */
  lemma {:induction false} FirstPieceBeforeSeparator(s: string, sep: char, k: nat)
    requires k < |s| && s[k] == sep
    requires sep !in s[..k]
    ensures Split(s, sep)[0] == s[..k]
  {
  }

  // ---------------------------------------------------------------------
  // `s.trim()`

  /** `s` without its leading whitespace. */
  function TrimStart(s: string): (r: string)
    ensures |r| <= |s| && r == s[|s| - |r|..]
    ensures AllSpace(s[..|s| - |r|])
    ensures r != [] ==> !IsSpace(r[0])
    decreases |s|
  {
    if s != [] && IsSpace(s[0]) then
      var r := TrimStart(s[1..]);
      assert s[..|s| - |r|] == [s[0]] + s[1..][..|s| - 1 - |r|];
      r
    else s
  }

  /** `s` without its trailing whitespace. */
  function TrimEnd(s: string): (r: string)
    ensures |r| <= |s| && r == s[..|r|]
    ensures AllSpace(s[|r|..])
    ensures r != [] ==> !IsSpace(r[|r| - 1])
    decreases |s|
  {
    if s != [] && IsSpace(s[|s| - 1]) then
      var r := TrimEnd(s[..|s| - 1]);
      assert s[|r|..] == s[..|s| - 1][|r|..] + [s[|s| - 1]];
      r
    else s
  }

  /** `s.trim()`: the longest slice of `s` that neither starts nor ends
      with whitespace, obtained by dropping whitespace at both ends. */
  function Trim(s: string): (r: string)
    ensures |r| <= |s|
    ensures r == "" <==> AllSpace(s)
    ensures r != "" ==> !IsSpace(r[0]) && !IsSpace(r[|r| - 1])
  {
    TrimAllSpace(s, TrimStart(s));
    TrimEnds(s, TrimStart(s));
    TrimEnd(TrimStart(s))
  }

  /** The trimmed text `r` is the slice of `s` left between its leading
      whitespace (what `TrimStart` drops, up to `|s| - |t|`) and its
      trailing whitespace. */
  lemma {:induction false} TrimSlice(s: string, t: string, r: string)
    requires t == TrimStart(s) && r == Trim(s)
    ensures var k := |s| - |t|;
      && k + |r| <= |s|
      && r == s[k..k + |r|]
      && AllSpace(s[..k]) && AllSpace(s[k + |r|..])
  {
    assert r == TrimEnd(t);
    SliceOfSuffix(s, t, r);
  }

  /** A prefix `r` of a suffix `t` of `s`, with whitespace on both sides. */
  lemma {:induction false} SliceOfSuffix(s: string, t: string, r: string)
    requires |t| <= |s| && t == s[|s| - |t|..] && AllSpace(s[..|s| - |t|])
    requires |r| <= |t| && r == t[..|r|] && AllSpace(t[|r|..])
    ensures var k := |s| - |t|;
      && k + |r| <= |s|
      && r == s[k..k + |r|]
      && AllSpace(s[..k]) && AllSpace(s[k + |r|..])
  {
    var k := |s| - |t|;
    assert s[k + |r|..] == t[|r|..];
  }

  /** Nothing is left exactly when `s` is all whitespace. */
  lemma {:induction false} TrimAllSpace(s: string, t: string)
    requires t == TrimStart(s)
    ensures TrimEnd(t) == "" <==> AllSpace(s)
  {
    var k := |s| - |t|;
    TrimEmpty(s[..k], t);
    assert s == s[..k] + t;
  }

  /** What is left neither starts nor ends with whitespace. */
  lemma {:induction false} TrimEnds(s: string, t: string)
    requires t == TrimStart(s)
    ensures var r := TrimEnd(t); r != "" ==> !IsSpace(r[0]) && !IsSpace(r[|r| - 1])
  {
    var r := TrimEnd(t);
    assert r != "" ==> r[0] == t[0];
  }

  /** Trimming leaves nothing exactly when the input is all whitespace. */
  lemma {:induction false} TrimEmpty(a: string, t: string)
    requires AllSpace(a)
    requires t != "" ==> !IsSpace(t[0])
    ensures TrimEnd(t) == "" <==> AllSpace(a + t)
  {
    if TrimEnd(t) == "" {
      assert t == t[0..];
      AllSpaceConcat(a, t);
    }
    if t != "" {
      assert (a + t)[|a|] == t[0];
    }
  }

  /** Whitespace on both sides is whitespace together. */
  lemma {:induction false} AllSpaceConcat(a: string, b: string)
    requires AllSpace(a) && AllSpace(b)
    ensures AllSpace(a + b)
  {
    forall i | 0 <= i < |a + b| ensures IsSpace((a + b)[i]) {
      if i < |a| { assert (a + b)[i] == a[i]; } else { assert (a + b)[i] == b[i - |a|]; }
    }
  }

  /** A string that neither starts nor ends with whitespace is its own trim. */
  lemma {:induction false} TrimUnchanged(s: string)
    requires s != "" ==> !IsSpace(s[0]) && !IsSpace(s[|s| - 1])
    ensures Trim(s) == s
  {
  }

  /** Trimming twice is trimming once. */
  lemma {:induction false} TrimIdempotent(s: string)
    ensures Trim(Trim(s)) == Trim(s)
  {
    TrimUnchanged(Trim(s));
  }

  /** Leading whitespace is dropped whatever follows it. */
  lemma {:induction false} TrimStartSkipsSpace(a: string, x: string)
    requires AllSpace(a)
    ensures TrimStart(a + x) == TrimStart(x)
    decreases |a|
  {
    if a != "" {
      assert IsSpace(a[0]);
      assert (a + x)[1..] == a[1..] + x;
      TrimStartSkipsSpace(a[1..], x);
    } else {
      assert a + x == x;
    }
  }

  /** Trailing whitespace is dropped whatever precedes it. */
  lemma {:induction false} TrimEndSkipsSpace(x: string, b: string)
    requires AllSpace(b)
    ensures TrimEnd(x + b) == TrimEnd(x)
    decreases |b|
  {
    if b != "" {
      var s := x + b;
      assert IsSpace(b[|b| - 1]) && s[|s| - 1] == b[|b| - 1];
      assert s[..|s| - 1] == x + b[..|b| - 1];
      TrimEndSkipsSpace(x, b[..|b| - 1]);
    } else {
      assert x + b == x;
    }
  }

  /** Whitespace around a string that neither starts nor ends with
      whitespace does not reach the trimmed result. */
  lemma {:induction false} TrimSurrounded(a: string, m: string, b: string)
    requires AllSpace(a) && AllSpace(b)
    requires m != "" ==> !IsSpace(m[0]) && !IsSpace(m[|m| - 1])
    ensures Trim(a + m + b) == m
  {
    assert a + m + b == a + (m + b);
    TrimStartSkipsSpace(a, m + b);
    if m == "" {
      assert m + b == b + "";
      TrimStartSkipsSpace(b, "");
    } else {
      assert (m + b)[0] == m[0];
      assert TrimStart(m + b) == m + b;
      TrimEndSkipsSpace(m, b);
    }
  }
}
