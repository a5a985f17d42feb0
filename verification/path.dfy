/**
 `AbsoluteInventoryPath` (src/model.rs:330-360): an absolute path in a user's
 inventory, held as its list of segments. `.` and `..` are ordinary names.
 */
module InventoryPath {

  datatype AbsoluteInventoryPath = AbsoluteInventoryPath(segments: seq<string>)

  /** The separator `from_str` splits on and `to_absolute_path` joins with. */
  const Slash: char := '/'

  /** The separator of the URL query form: a backslash, percent-encoded. */
  const EscapedBackslash: string := "%5C"

  /** Rust's `str::split` on one character: the pieces between separators,
      empty ones included; there is always one piece more than separators. */
  function Split(s: string, sep: char): (parts: seq<string>)
    ensures |parts| == multiset(s)[sep] + 1
    ensures forall i :: 0 <= i < |parts| ==> sep !in parts[i]
    decreases |s|
  {
    if |s| == 0 then [""]
    else
      var rest := Split(s[1..], sep);
      assert s == [s[0]] + s[1..];
      if s[0] == sep then [""] + rest
      else [[s[0]] + rest[0]] + rest[1..]
  }

  /** Rust's `join`: the parts with `sep` between consecutive ones; no parts give "". */
  function Join(parts: seq<string>, sep: string): string {
    if |parts| == 0 then ""
    else if |parts| == 1 then parts[0]
    else parts[0] + sep + Join(parts[1..], sep)
  }

  /** `s` with every `sep` replaced by `replacement`. */
  function Replace(s: string, sep: char, replacement: string): string {
    if |s| == 0 then ""
    else (if s[0] == sep then replacement else [s[0]]) + Replace(s[1..], sep, replacement)
  }

  /** What `from_str` can produce: at least one segment, none holding a slash. */
  predicate WellFormed(p: AbsoluteInventoryPath) {
    && |p.segments| >= 1
    && forall i :: 0 <= i < |p.segments| ==> Slash !in p.segments[i]
  }

  /** `from_str`: never fails; splits on every slash. */
  function Parse(s: string): (p: AbsoluteInventoryPath)
    ensures WellFormed(p)
    ensures |p.segments| == multiset(s)[Slash] + 1
  {
    AbsoluteInventoryPath(Split(s, Slash))
  }

  /** `to_absolute_path`: the segments joined with slashes. */
  function ToAbsolutePath(p: AbsoluteInventoryPath): (r: string)
    ensures WellFormed(p) ==> Split(r, Slash) == p.segments
  {
    assert WellFormed(p) ==> Split(Join(p.segments, [Slash]), Slash) == p.segments by {
      if WellFormed(p) {
        SplitJoin(p.segments, Slash);
      }
    }
    Join(p.segments, [Slash])
  }

  /** `to_uri_query_value`: the segments joined with `%5C`. */
  function ToUriQueryValue(p: AbsoluteInventoryPath): (r: string)
    ensures WellFormed(p) ==> r == Replace(ToAbsolutePath(p), Slash, EscapedBackslash)
  {
    assert WellFormed(p) ==>
      Join(p.segments, EscapedBackslash) == Replace(ToAbsolutePath(p), Slash, EscapedBackslash) by {
      if WellFormed(p) {
        JoinSplitIsReplace(ToAbsolutePath(p), Slash, EscapedBackslash);
      }
    }
    Join(p.segments, EscapedBackslash)
  }

  /** The `Display` implementation, which writes `to_absolute_path`. */
  function Display(p: AbsoluteInventoryPath): (r: string)
    ensures WellFormed(p) ==> Parse(r) == p
  {
    ToAbsolutePath(p)
  }

  /** `AbsoluteInventoryPath::default()`: no segments at all. */
  function Default(): (p: AbsoluteInventoryPath)
    ensures ToAbsolutePath(p) == "" && ToUriQueryValue(p) == ""
    ensures !WellFormed(p)
  {
    AbsoluteInventoryPath([])
  }

  // ---------------------------------------------------------------------------
  // Properties
  // ---------------------------------------------------------------------------

  /** Joining a piece in front of a non-empty list puts one separator after it. */
  lemma JoinCons(head: string, rest: seq<string>, e: string)
    requires |rest| >= 1
    ensures Join([head] + rest, e) == head + e + Join(rest, e)
  {
    assert ([head] + rest)[1..] == rest;
  }

  /** Adding characters to the first piece of a list adds them to its join. */
  lemma JoinExtendFirst(c: string, rest: seq<string>, e: string)
    requires |rest| >= 1
    ensures Join([c + rest[0]] + rest[1..], e) == c + Join(rest, e)
  {
    if |rest| > 1 {
      JoinCons(c + rest[0], rest[1..], e);
      JoinCons(rest[0], rest[1..], e);
      assert rest == [rest[0]] + rest[1..];
    }
  }

  /** Splitting on `sep` and joining with `e` replaces each `sep` by `e`. */
  lemma {:induction false} JoinSplitIsReplace(s: string, sep: char, e: string)
    ensures Join(Split(s, sep), e) == Replace(s, sep, e)
    decreases |s|
  {
    if |s| > 0 {
      JoinSplitIsReplace(s[1..], sep, e);
      JoinSplitStep(s, sep, e);
    }
  }

  /** One step of `JoinSplitIsReplace`: the first character of `s` either
      closes the first piece or extends it. */
  lemma JoinSplitStep(s: string, sep: char, e: string)
    requires |s| > 0
    ensures Join(Split(s, sep), e)
         == (if s[0] == sep then e else [s[0]]) + Join(Split(s[1..], sep), e)
  {
    var rest := Split(s[1..], sep);
    if s[0] == sep {
      assert Split(s, sep) == [""] + rest;
      JoinCons("", rest, e);
    } else {
      assert Split(s, sep) == [[s[0]] + rest[0]] + rest[1..];
      JoinExtendFirst([s[0]], rest, e);
    }
  }

  /** Replacing a character by itself changes nothing. */
  lemma {:induction false} ReplaceBySelf(s: string, sep: char)
    ensures Replace(s, sep, [sep]) == s
    decreases |s|
  {
    if |s| > 0 {
      ReplaceBySelf(s[1..], sep);
      assert s == [s[0]] + s[1..];
    }
  }

  /** A string without `sep` splits into itself alone. */
  lemma {:induction false} SplitWithoutSeparator(a: string, sep: char)
    requires sep !in a
    ensures Split(a, sep) == [a]
    decreases |a|
  {
    if |a| > 0 {
      SplitWithoutSeparator(a[1..], sep);
      assert a == [a[0]] + a[1..];
    }
  }

  /** The piece before the first separator is split off whole. */
  lemma {:induction false} SplitAfterSegment(a: string, t: string, sep: char)
    requires sep !in a
    ensures Split(a + [sep] + t, sep) == [a] + Split(t, sep)
    decreases |a|
  {
    var s := a + [sep] + t;
    if |a| == 0 {
      assert s[1..] == t;
    } else {
      assert s[1..] == a[1..] + [sep] + t;
      SplitAfterSegment(a[1..], t, sep);
      assert a == [a[0]] + a[1..];
    }
  }

  /** Joining well-formed pieces and splitting again gives the pieces back. */
  lemma {:induction false} SplitJoin(parts: seq<string>, sep: char)
    requires |parts| >= 1
    requires forall i :: 0 <= i < |parts| ==> sep !in parts[i]
    ensures Split(Join(parts, [sep]), sep) == parts
    decreases |parts|
  {
    if |parts| == 1 {
      SplitWithoutSeparator(parts[0], sep);
    } else {
      SplitJoin(parts[1..], sep);
      SplitAfterSegment(parts[0], Join(parts[1..], [sep]), sep);
      assert parts == [parts[0]] + parts[1..];
    }
  }

  /** `to_absolute_path(from_str(s)) == s` for every string, `.`, `..` and empty
      segments included. */
  lemma {:induction false} ParseThenToAbsolutePath(s: string)
    ensures ToAbsolutePath(Parse(s)) == s
    ensures Display(Parse(s)) == s
  {
    JoinSplitIsReplace(s, Slash, [Slash]);
    ReplaceBySelf(s, Slash);
  }

  /** Every well-formed path is the parse of its own slash form. */
  lemma ToAbsolutePathThenParse(p: AbsoluteInventoryPath)
    requires WellFormed(p)
    ensures Parse(ToAbsolutePath(p)) == p
  {
    SplitJoin(p.segments, Slash);
  }

  /** The query form of a parsed path is the input with each slash written `%5C`. */
  lemma {:induction false} ParseThenToUriQueryValue(s: string)
    ensures ToUriQueryValue(Parse(s)) == Replace(s, Slash, EscapedBackslash)
  {
    JoinSplitIsReplace(s, Slash, EscapedBackslash);
  }

  /** Both serialisations list the same segments in the same order: for a
      well-formed path the query form is the slash form with every slash
      written `%5C`, and `Display` is the slash form. */
  lemma SerialisationsAgree(p: AbsoluteInventoryPath)
    requires WellFormed(p)
    ensures ToUriQueryValue(p) == Replace(ToAbsolutePath(p), Slash, EscapedBackslash)
    ensures Display(p) == ToAbsolutePath(p)
  {
    ToAbsolutePathThenParse(p);
    ParseThenToUriQueryValue(ToAbsolutePath(p));
  }

  /** The default path is not well-formed: it prints as "" and "" parses to one
      empty segment, so printing and re-parsing the default does not restore it. */
  lemma DefaultNotRestored()
    ensures !WellFormed(Default())
    ensures Display(Default()) == ""
    ensures Parse(Display(Default())) == AbsoluteInventoryPath([""])
    ensures Parse(Display(Default())) != Default()
  {
  }

  /** The query form escapes nothing inside a segment: a segment that itself
      contains `%5C` gives the same query value as two segments. */
  lemma QueryValueAmbiguous()
    ensures Parse("a%5Cb").segments == ["a%5Cb"]
    ensures ToUriQueryValue(Parse("a%5Cb")) == ToUriQueryValue(AbsoluteInventoryPath(["a", "b"]))
  {
    var one := AbsoluteInventoryPath(["a%5Cb"]);
    assert WellFormed(one);
    assert ToAbsolutePath(one) == "a%5Cb";
    ToAbsolutePathThenParse(one);
    assert Join(["a", "b"], EscapedBackslash) == "a" + EscapedBackslash + "b";
  }

  /** A concrete instance: dots are literal segment names. */
  lemma DotsAreLiteral()
    ensures Parse("Inventory/../.").segments == ["Inventory", "..", "."]
  {
    var p := AbsoluteInventoryPath(["Inventory", "..", "."]);
    assert p.segments[1..] == ["..", "."];
    assert Join(["..", "."], "/") == "../.";
    assert ToAbsolutePath(p) == "Inventory" + "/" + "../.";
    assert ToAbsolutePath(p) == "Inventory/../.";
    ToAbsolutePathThenParse(p);
  }
}
