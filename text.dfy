/** String primitives from Go's standard library that the supervisor relies on:
    strings.TrimSpace, strings.Split, strings.Join, strings.Replace (with n = 1)
    and bufio.ScanLines. Strings are sequences of Unicode code points. */
module Text {

  datatype Option<T> = None | Some(value: T)

  /** Go's unicode.IsSpace: the Unicode White_Space code points, ASCII first. */
  predicate IsSpace(c: char) {
    if c < '\U{0085}' then c == ' ' || ('\t' <= c <= '\r')
    else
      c == '\U{0085}' || c == '\U{00A0}' || c == '\U{1680}' || ('\U{2000}' <= c <= '\U{200A}')
      || c == '\U{2028}' || c == '\U{2029}' || c == '\U{202F}' || c == '\U{205F}' || c == '\U{3000}'
  }

  predicate AllSpace(s: string) {
    forall i :: 0 <= i < |s| ==> IsSpace(s[i])
  }

  predicate NoSpace(s: string) {
    forall i :: 0 <= i < |s| ==> !IsSpace(s[i])
  }

  /** Neither end of `s` is whitespace: what TrimSpace leaves. */
  predicate Trimmed(s: string) {
    s == [] || (!IsSpace(s[0]) && !IsSpace(s[|s| - 1]))
  }

  /** Number of whitespace code points at the start of `s`. */
  function LeadingSpace(s: string): (n: nat)
    ensures n <= |s|
    ensures forall i :: 0 <= i < n ==> IsSpace(s[i])
    ensures n < |s| ==> !IsSpace(s[n])
  {
    if s != [] && IsSpace(s[0]) then 1 + LeadingSpace(s[1..]) else 0
  }

  /** Number of whitespace code points at the end of `s`. */
  function TrailingSpace(s: string): (n: nat)
    ensures n <= |s|
    ensures forall i :: |s| - n <= i < |s| ==> IsSpace(s[i])
    ensures n < |s| ==> !IsSpace(s[|s| - n - 1])
  {
    if s != [] && IsSpace(s[|s| - 1]) then 1 + TrailingSpace(s[..|s| - 1]) else 0
  }

  /** strings.TrimSpace: the slice of `s` between its leading and trailing whitespace. */
  function TrimSpace(s: string): (r: string)
    ensures |r| <= |s| - LeadingSpace(s)
    ensures r == s[LeadingSpace(s)..LeadingSpace(s) + |r|]
    ensures AllSpace(s[LeadingSpace(s) + |r|..])
    ensures Trimmed(r)
  {
    var l := LeadingSpace(s);
    var t := s[l..];
    var k := |t| - TrailingSpace(t);
    SliceOfSuffix(s, l, k);
    var r := t[..k];
    assert r != [] ==> r[0] == s[l] && r[|r| - 1] == t[k - 1];
    r
  }

  lemma SliceOfSuffix<T>(s: seq<T>, l: nat, k: nat)
    requires l <= |s| && k <= |s| - l
    ensures s[l..][..k] == s[l..l + k] && s[l..][k..] == s[l + k..]
  {
  }

  lemma AllSpaceConcat(a: string, b: string)
    requires AllSpace(a) && AllSpace(b)
    ensures AllSpace(a + b)
  {
    assert forall i :: 0 <= i < |a + b| ==> (a + b)[i] == if i < |a| then a[i] else b[i - |a|];
  }

  /** Leading whitespace made only of whitespace is skipped entirely. */
  lemma {:induction false} LeadingSpaceAfterSpace(a: string, t: string)
    requires AllSpace(a)
    ensures LeadingSpace(a + t) == |a| + LeadingSpace(t)
  {
    if a != [] {
      assert (a + t)[1..] == a[1..] + t;
      LeadingSpaceAfterSpace(a[1..], t);
    } else {
      assert a + t == t;
    }
  }

  lemma {:induction false} TrailingSpaceBeforeSpace(t: string, b: string)
    requires AllSpace(b)
    ensures TrailingSpace(t + b) == TrailingSpace(t) + |b|
  {
    if b != [] {
      assert (t + b)[..|t + b| - 1] == t + b[..|b| - 1];
      TrailingSpaceBeforeSpace(t, b[..|b| - 1]);
    } else {
      assert t + b == t;
    }
  }

  /** TrimSpace is determined by its three properties: any split of `s` into
      whitespace, a trimmed middle and whitespace trims to that middle. */
  lemma TrimSpaceOf(a: string, m: string, b: string)
    requires AllSpace(a) && AllSpace(b) && Trimmed(m)
    ensures TrimSpace(a + m + b) == m
  {
    var s := a + m + b;
    if m == [] {
      AllSpaceConcat(a, b);
      assert s == a + b;
      assert LeadingSpace(s) == |s|;
    } else {
      assert s == a + (m + b);
      LeadingSpaceAfterSpace(a, m + b);
      assert LeadingSpace(m + b) == 0;
      var t := s[|a|..];
      assert t == m + b;
      TrailingSpaceBeforeSpace(m, b);
      assert TrailingSpace(m) == 0;
      assert t[..|t| - |b|] == m;
    }
  }

  /** A string with no whitespace at either end is its own trimmed form. */
  lemma TrimSpaceOfTrimmed(m: string)
    requires Trimmed(m)
    ensures TrimSpace(m) == m
  {
    assert LeadingSpace(m) == 0;
    assert m[0..] == m;
  }

  /** Every string is its trimmed part surrounded by whitespace. */
  lemma TrimSpaceSplits(s: string)
    ensures s == s[..LeadingSpace(s)] + TrimSpace(s) + s[LeadingSpace(s) + |TrimSpace(s)|..]
  {
    var l, r := LeadingSpace(s), TrimSpace(s);
    SliceSplit(s, l, l + |r|);
  }

  lemma SliceSplit<T>(s: seq<T>, i: nat, j: nat)
    requires i <= j <= |s|
    ensures s == s[..i] + s[i..j] + s[j..]
  {
  }

  lemma AppendAssoc<T>(a: seq<T>, b: seq<T>, c: seq<T>)
    ensures (a + b) + c == a + (b + c)
  {
  }

  /** Trailing whitespace does not change what TrimSpace keeps. */
  lemma TrimSpaceAppendSpace(y: string, b: string)
    requires AllSpace(b)
    ensures TrimSpace(y + b) == TrimSpace(y)
  {
    var l, m := LeadingSpace(y), TrimSpace(y);
    var p, q := y[..l], y[l + |m|..];
    TrimSpaceSplits(y);
    AllSpaceConcat(q, b);
    AppendAssoc(p + m, q, b);
    TrimSpaceOf(p, m, q + b);
  }

  /** Trimming ignores a trailing carriage return. */
  lemma TrimSpaceDropCR(x: string)
    ensures TrimSpace(DropCR(x)) == TrimSpace(x)
  {
    if x != [] && x[|x| - 1] == '\r' {
      var y := x[..|x| - 1];
      assert x == y + "\r";
      TrimSpaceAppendSpace(y, "\r");
    }
  }

  lemma TrimSpaceIdempotent(s: string)
    ensures TrimSpace(TrimSpace(s)) == TrimSpace(s)
  {
    TrimSpaceOfTrimmed(TrimSpace(s));
  }

  /** strings.Join. */
  function Join(parts: seq<string>, sep: string): string
  {
    if parts == [] then []
    else if |parts| == 1 then parts[0]
    else parts[0] + sep + Join(parts[1..], sep)
  }

  /** strings.Split with a one-character separator: the pieces between
      separators, at least one of them, rejoined they give `s` back. */
  function Split(s: string, sep: char): (parts: seq<string>)
    ensures |parts| >= 1
    ensures Join(parts, [sep]) == s
    ensures forall k :: 0 <= k < |parts| ==> sep !in parts[k]
  {
    if s == [] then [[]]
    else
      var rest := Split(s[1..], sep);
      if s[0] == sep then
        assert Join([[]] + rest, [sep]) == [] + [sep] + Join(rest, [sep]);
        [[]] + rest
      else
        var parts := [[s[0]] + rest[0]] + rest[1..];
        assert parts[1..] == rest[1..];
        assert |rest| > 1 ==> Join(rest, [sep]) == rest[0] + [sep] + Join(rest[1..], [sep]);
        parts
  }

  /** A piece without the separator splits to itself. */
  lemma {:induction false} SplitWord(w: string, sep: char)
    requires sep !in w
    ensures Split(w, sep) == [w]
    decreases |w|
  {
    if w != [] {
      SplitWord(w[1..], sep);
      assert [w[0]] + w[1..] == w;
    }
  }

  /** A separator-free piece followed by the separator splits off as the
      first piece. */
  lemma {:induction false} SplitPrepend(w: string, r: string, sep: char)
    requires sep !in w
    ensures Split(w + [sep] + r, sep) == [w] + Split(r, sep)
    decreases |w|
  {
    var s := w + [sep] + r;
    if w == [] {
      assert s[0] == sep && s[1..] == r;
    } else {
      assert s[0] == w[0] && s[1..] == w[1..] + [sep] + r;
      SplitPrepend(w[1..], r, sep);
      assert [w[0]] + w[1..] == w;
    }
  }

  /** Split inverts Join: joining separator-free pieces and splitting the
      result gives the pieces back. */
  lemma {:induction false} SplitJoin(parts: seq<string>, sep: char)
    requires |parts| >= 1
    requires forall k :: 0 <= k < |parts| ==> sep !in parts[k]
    ensures Split(Join(parts, [sep]), sep) == parts
    decreases |parts|
  {
    if |parts| == 1 {
      SplitWord(parts[0], sep);
    } else {
      SplitPrepend(parts[0], Join(parts[1..], [sep]), sep);
      SplitJoin(parts[1..], sep);
      assert [parts[0]] + parts[1..] == parts;
    }
  }

  /** The first piece of a split is the text before the first separator,
      or the whole string when there is none. */
  lemma SplitFirst(s: string, sep: char)
    ensures var p := Split(s, sep)[0];
      |p| <= |s| && p == s[..|p|] && sep !in p && (|p| == |s| || s[|p|] == sep)
  {
    var parts := Split(s, sep);
    var p := parts[0];
    if |parts| == 1 {
      assert Join(parts, [sep]) == p;
    } else {
      assert s == p + [sep] + Join(parts[1..], [sep]);
      assert s[..|p|] == p;
    }
  }

  /** Where `pat` first occurs in `s`, if anywhere. */
  function IndexOf(s: string, pat: string): (r: Option<nat>)
    ensures r.Some? ==> r.value + |pat| <= |s| && s[r.value..r.value + |pat|] == pat
    ensures r.Some? ==> forall k :: 0 <= k < r.value ==> s[k..][..|pat|] != pat
    ensures r.None? ==> forall k :: 0 <= k <= |s| - |pat| ==> s[k..][..|pat|] != pat
  {
    if |s| < |pat| then None
    else if s[..|pat|] == pat then Some(0)
    else
      match IndexOf(s[1..], pat)
      case None =>
        assert forall k :: 1 <= k <= |s| - |pat| ==> s[k..] == s[1..][k - 1..];
        None
      case Some(i) =>
        assert forall k :: 1 <= k < i + 1 ==> s[k..] == s[1..][k - 1..];
        Some(i + 1)
  }

  /** strings.Replace(s, old, new, 1): replace the first occurrence only. */
  function ReplaceFirst(s: string, target: string, repl: string): string
  {
    if target == repl then s
    else
      match IndexOf(s, target)
      case None => s
      case Some(i) => s[..i] + repl + s[i + |target|..]
  }

  /** When `target` is a non-empty prefix of `s`, the single replacement removes that prefix. */
  lemma ReplacePrefix(s: string, target: string)
    requires |target| <= |s| && s[..|target|] == target
    ensures target != [] ==> ReplaceFirst(s, target, []) == s[|target|..]
  {
  }

  /** bufio's dropCR: drop one trailing carriage return. */
  function DropCR(s: string): (r: string)
  {
    if s != [] && s[|s| - 1] == '\r' then s[..|s| - 1] else s
  }

  /** bufio.ScanLines applied to a whole input: one token per '\n'-terminated
      line with a trailing '\r' dropped, plus the unterminated tail if non-empty. */
  function ScanLines(data: string): seq<string>
    decreases |data|
  {
    if data == [] then []
    else
      match IndexOf(data, "\n")
      case Some(i) => [DropCR(data[..i])] + ScanLines(data[i + 1..])
      case None => [DropCR(data)]
  }

  lemma {:induction false} IndexOfExtends(a: string, b: string, pat: string)
    requires IndexOf(a, pat).Some?
    ensures IndexOf(a + b, pat) == IndexOf(a, pat)
  {
    if |a| >= |pat| && a[..|pat|] == pat {
      assert (a + b)[..|pat|] == pat;
    } else {
      assert (a + b)[..|pat|] == a[..|pat|];
      assert (a + b)[1..] == a[1..] + b;
      IndexOfExtends(a[1..], b, pat);
    }
  }

  /** Scanning a file made of complete lines followed by more data yields the
      lines of each part in turn: appending never disturbs earlier tokens. */
  lemma {:induction false} ScanLinesAppend(a: string, b: string)
    requires a == [] || a[|a| - 1] == '\n'
    ensures ScanLines(a + b) == ScanLines(a) + ScanLines(b)
    decreases |a|
  {
    if a == [] {
      assert a + b == b;
    } else {
      assert a[|a| - 1..][..1] == "\n";
      var i := IndexOf(a, "\n").value;
      IndexOfExtends(a, b, "\n");
      var ab := a + b;
      assert ab != [];
      assert ab[..i] == a[..i];
      assert ab[i + 1..] == a[i + 1..] + b;
      calc {
        ScanLines(ab);
        [DropCR(a[..i])] + ScanLines(a[i + 1..] + b);
        { ScanLinesAppend(a[i + 1..], b); }
        [DropCR(a[..i])] + (ScanLines(a[i + 1..]) + ScanLines(b));
        ScanLines(a) + ScanLines(b);
      }
    }
  }

  /** A single line without '\n', terminated by one '\n', scans to itself
      minus a trailing '\r'. */
  lemma ScanOneLine(line: string)
    requires '\n' !in line
    ensures ScanLines(line + "\n") == [DropCR(line)]
  {
    var data := line + "\n";
    assert data[|line|..][..1] == "\n";
    var r := IndexOf(data, "\n");
    assert r.Some?;
    assert forall k :: 0 <= k < |line| ==> data[k..][..1] != "\n" by {
      forall k | 0 <= k < |line| ensures data[k..][..1] != "\n" {
        assert data[k..][..1] == [line[k]];
      }
    }
    assert data[r.value..][..1] == data[r.value..r.value + 1];
    assert r.value == |line|;
    assert data[..|line|] == line;
    assert data[|line| + 1..] == [];
  }
}
