/**
 * String helpers shared by the three implementations: case folding, suffix and
 * substring tests, and the path splitting each one uses to find a file's
 * extension or its base name.
 */
module Text {
  import opened Wrappers

  /** ASCII case folding of one character (PHP's `strtolower`). */
  function LowerChar(c: char): char {
    if 'A' <= c <= 'Z' then (c as int + 32) as char else c
  }

  /** Lower-cases a string character by character. */
  function Lower(s: string): (r: string)
    ensures |r| == |s|
    ensures forall i :: 0 <= i < |s| ==> r[i] == LowerChar(s[i])
  {
    seq(|s|, i requires 0 <= i < |s| => LowerChar(s[i]))
  }

  lemma LowerAppend(a: string, b: string)
    ensures Lower(a + b) == Lower(a) + Lower(b)
  {
  }

  /** Lower-casing is idempotent and leaves no 'A'..'Z': a lower-cased name passes the lower-cased
      suffix tests exactly as the name does. */
  lemma LowerIdempotent(s: string)
    ensures Lower(Lower(s)) == Lower(s)
    ensures forall i :: 0 <= i < |s| ==> !('A' <= Lower(s)[i] <= 'Z')
  {
  }

  /** Python's `str.endswith`, JavaScript's `String.prototype.endsWith`. */
  predicate EndsWith(s: string, suffix: string) {
    |suffix| <= |s| && s[|s| - |suffix|..] == suffix
  }

  /** JavaScript's `String.prototype.includes`: `t` occurs somewhere in `s`. */
  predicate Contains(s: string, t: string) {
    exists i | 0 <= i <= |s| - |t| :: OccursAt(s, t, i)
  }

  /** `t` occurs in `s` starting at index `i`. */
  predicate OccursAt(s: string, t: string, i: int) {
    0 <= i <= |s| - |t| && s[i..i + |t|] == t
  }

  /** The part of `s` after the last occurrence of `c` (all of `s` when `c` does not occur). */
  function AfterLast(s: string, c: char): string {
    if s == [] then []
    else if s[|s| - 1] == c then []
    else AfterLast(s[..|s| - 1], c) + [s[|s| - 1]]
  }

  /** `AfterLast` is the longest suffix free of `c`: a suffix, without `c`, and preceded by `c`
      whenever it is not the whole string. */
  lemma {:induction false} AfterLastSpec(s: string, c: char)
    ensures EndsWith(s, AfterLast(s, c))
    ensures c !in AfterLast(s, c)
    ensures |AfterLast(s, c)| < |s| ==> s[|s| - |AfterLast(s, c)| - 1] == c
  {
    if s != [] && s[|s| - 1] != c {
      var p, x := s[..|s| - 1], s[|s| - 1];
      AfterLastSpec(p, c);
      var r := AfterLast(p, c);
      assert AfterLast(s, c) == r + [x];
      assert s[|s| - |r| - 1..] == p[|p| - |r|..] + [x];
      if |r| < |p| {
        assert s[|s| - |r| - 2] == p[|p| - |r| - 1];
      }
    }
  }

  /** `s` with every trailing `c` removed (PHP's `basename` first drops trailing slashes). */
  function StripTrailing(s: string, c: char): string {
    if s != [] && s[|s| - 1] == c then StripTrailing(s[..|s| - 1], c) else s
  }

  /** `StripTrailing` keeps a prefix that does not end in `c`, and what it removes is all `c`. */
  lemma {:induction false} StripTrailingSpec(s: string, c: char)
    ensures var r := StripTrailing(s, c);
            && |r| <= |s| && r == s[..|r|]
            && (r == [] || r[|r| - 1] != c)
            && forall i :: |r| <= i < |s| ==> s[i] == c
  {
    if s != [] && s[|s| - 1] == c {
      StripTrailingSpec(s[..|s| - 1], c);
    }
  }

  /** PHP's `basename`: the last '/'-separated component, ignoring trailing slashes. */
  function PhpBasename(path: string): string {
    AfterLast(StripTrailing(path, '/'), '/')
  }

  /** The text after the last '.' of `s`, or None when `s` has no '.'. */
  function DotSuffix(s: string): Option<string> {
    if s == [] then None
    else if s[|s| - 1] == '.' then Some([])
    else match DotSuffix(s[..|s| - 1])
      case Some(e) => Some(e + [s[|s| - 1]])
      case None => None
  }

  /** PHP's `pathinfo($path, PATHINFO_EXTENSION)`: the text after the last '.' of the base name, or "". */
  function PathExtension(path: string): string {
    DotSuffix(PhpBasename(path)).GetOr("")
  }

  /** `DotSuffix` finds the text after the LAST '.': a suffix free of '.', preceded by '.';
      None only when there is no '.' at all. */
  lemma {:induction false} DotSuffixSpec(s: string)
    ensures DotSuffix(s).Some? ==> |DotSuffix(s).value| < |s| && s[|s| - |DotSuffix(s).value| - 1] == '.'
    ensures DotSuffix(s).Some? ==> EndsWith(s, DotSuffix(s).value) && '.' !in DotSuffix(s).value
    ensures DotSuffix(s).None? ==> '.' !in s
  {
    if s != [] && s[|s| - 1] != '.' {
      var p, x := s[..|s| - 1], s[|s| - 1];
      DotSuffixSpec(p);
      assert s == p + [x];
      if DotSuffix(p).Some? {
        var e := DotSuffix(p).value;
        assert DotSuffix(s).value == e + [x];
        assert s[|s| - |e| - 1..] == p[|p| - |e|..] + [x];
        assert s[|s| - |e| - 2] == p[|p| - |e| - 1];
      }
    }
  }

  /** Conversely, a '.' followed by `k` characters none of which is '.' gives those `k`. */
  lemma {:induction false} DotSuffixAt(s: string, k: nat)
    requires k < |s| && s[|s| - k - 1] == '.'
    requires forall j :: |s| - k <= j < |s| ==> s[j] != '.'
    ensures DotSuffix(s) == Some(s[|s| - k..])
  {
    if k > 0 {
      var p := s[..|s| - 1];
      DotSuffixAt(p, k - 1);
      assert s[|s| - k..] == p[|p| - (k - 1)..] + [s[|s| - 1]];
    }
  }

  /** Only '.' folds to '.', and only '/' to '/'. */
  lemma LowerCharFixed(c: char)
    ensures LowerChar(c) == '.' <==> c == '.'
    ensures LowerChar(c) == '/' <==> c == '/'
  {
  }

  /** Lower-casing commutes with taking the last `k` characters. */
  lemma LowerSuffix(s: string, k: nat)
    requires k <= |s|
    ensures Lower(s)[|s| - k..] == Lower(s[|s| - k..])
  {
    LowerAppend(s[..|s| - k], s[|s| - k..]);
    assert s == s[..|s| - k] + s[|s| - k..];
  }

  /** A string that lower-cases to "xml" has three characters, none of them '.'. */
  lemma LowerXmlHasNoDot(e: string)
    requires Lower(e) == "xml"
    ensures |e| == 3 && '.' !in e
  {
    forall j | 0 <= j < 3
      ensures e[j] != '.'
    {
      assert Lower(e)[j] == LowerChar(e[j]);
    }
  }

  /** Four characters lower-case to ".xml" exactly when the first is '.' and the rest lower-case
      to "xml". */
  lemma LowerDotXml(t: string)
    requires |t| == 4
    ensures Lower(t) == ".xml" <==> t[0] == '.' && Lower(t[1..]) == "xml"
  {
    assert t == [t[0]] + t[1..];
    LowerAppend([t[0]], t[1..]);
    LowerCharFixed(t[0]);
  }

  /** An extension that lower-cases to "xml" means the base name ends, lower-cased, in ".xml". */
  lemma ExtensionXmlGivesSuffix(base: string)
    requires Lower(DotSuffix(base).GetOr("")) == "xml"
    ensures EndsWith(Lower(base), ".xml")
  {
    DotSuffixSpec(base);
    var e := DotSuffix(base).value;
    LowerXmlHasNoDot(e);
    var t := base[|base| - 4..];
    assert t[1..] == e;
    LowerDotXml(t);
    LowerEndsWith(base, ".xml");
  }

  /** A base name that ends, lower-cased, in ".xml" has an extension that lower-cases to "xml". */
  lemma SuffixGivesExtensionXml(base: string)
    requires EndsWith(Lower(base), ".xml")
    ensures Lower(DotSuffix(base).GetOr("")) == "xml"
  {
    var n := |base|;
    var t := base[n - 4..];
    LowerSuffix(base, 4);
    LowerDotXml(t);
    LowerXmlHasNoDot(t[1..]);
    assert t[1..] == base[n - 3..];
    DotSuffixAt(base, 3);
  }

  /** A lower-cased string ends in `t` exactly when its last `|t|` characters lower-case to `t`. */
  lemma LowerEndsWith(s: string, t: string)
    ensures EndsWith(Lower(s), t) <==> |t| <= |s| && Lower(s[|s| - |t|..]) == t
  {
    if |t| <= |s| {
      LowerSuffix(s, |t|);
    }
  }

  /** Four characters one of which is '/' never lower-case to ".xml". */
  lemma SlashNotDotXml(t: string, k: nat)
    requires |t| == 4 && k < 4 && t[k] == '/'
    ensures Lower(t) != ".xml"
  {
    assert Lower(t)[k] == '/';
  }

  /** A name ends, lower-cased, in ".xml" exactly when the part after its last '/' does. */
  lemma SuffixOfLastComponent(name: string)
    ensures EndsWith(Lower(name), ".xml") <==> EndsWith(Lower(AfterLast(name, '/')), ".xml")
  {
    var base := AfterLast(name, '/');
    AfterLastSpec(name, '/');
    LowerEndsWith(name, ".xml");
    LowerEndsWith(base, ".xml");
    var n, b := |name|, |base|;
    if b >= 4 {
      assert name[n - 4..] == base[b - 4..];
    } else if n >= 4 {
      SlashNotDotXml(name[n - 4..], 3 - b);
    }
  }

  /** For a member name that does not end in '/', PHP's filter
      `strtolower(pathinfo($name, PATHINFO_EXTENSION)) === 'xml'` and Python's
      `name.lower().endswith('.xml')` accept exactly the same names. */
  lemma PathFiltersAgree(name: string)
    requires name == [] || name[|name| - 1] != '/'
    ensures Lower(PathExtension(name)) == "xml" <==> EndsWith(Lower(name), ".xml")
  {
    assert StripTrailing(name, '/') == name;
    var base := AfterLast(name, '/');
    assert PathExtension(name) == DotSuffix(base).GetOr("");
    SuffixOfLastComponent(name);
    if EndsWith(Lower(base), ".xml") {
      SuffixGivesExtensionXml(base);
    }
    if Lower(DotSuffix(base).GetOr("")) == "xml" {
      ExtensionXmlGivesSuffix(base);
    }
  }
}
