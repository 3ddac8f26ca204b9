/**
 * The string, character and path operations of the .NET runtime that the
 * recovery scan relies on: `ToLower`, `Trim`, `Contains` (ordinal) and
 * `Path.GetFileName`. What is culture- or platform-dependent in them (the
 * Unicode tables and the directory separator) is a parameter, `CharTables`.
 */
module Strings {

  /**
   * The character tables the runtime consults. A .NET string is a sequence of
   * UTF-16 units and the runtime classifies each unit separately. A character
   * outside the Basic Multilingual Plane is two surrogate units, and no
   * surrogate counts as a letter, a digit or white space.
   */
  datatype CharTables = CharTables(
    isLetterOrDigit: char -> bool,
    isWhiteSpace: char -> bool,
    toLower: char -> char,
    isDirectorySeparator: char -> bool)

  /** A character that is one UTF-16 unit, that is, one inside the Basic Multilingual Plane. */
  predicate IsUtf16Unit(c: char) {
    c as int <= 0xFFFF
  }

  /**
   * What every culture's tables agree on and the lemmas rely on: the padding
   * character is not white space, lower-case ASCII letters lower to
   * themselves, and a character made of two surrogate units is not white space.
   */
  predicate WellFormed(t: CharTables) {
    !t.isWhiteSpace('=') &&
    (forall c :: 'a' <= c <= 'z' ==> t.toLower(c) == c) &&
    (forall c :: !IsUtf16Unit(c) ==> !t.isWhiteSpace(c))
  }

  function AsciiLower(c: char): char {
    if 'A' <= c <= 'Z' then (c as int + 32) as char else c
  }

  /** ASCII-only tables with the Unix separator, for worked examples. */
  const Ascii: CharTables := CharTables(
    c => ('a' <= c <= 'z') || ('A' <= c <= 'Z') || ('0' <= c <= '9'),
    c => c == ' ' || c == '\t' || c == '\n' || c == '\r' || c == '\U{B}' || c == '\U{C}',
    AsciiLower,
    c => c == '/')

  /** The ASCII tables meet `WellFormed`, so the lemmas that require it apply to the worked examples. */
  lemma AsciiIsWellFormed()
    ensures WellFormed(Ascii)
  {
  }

  /** `string.ToLower`: each character is mapped by the culture's simple case mapping, so the length is kept. */
  function Lower(t: CharTables, s: string): (r: string)
    ensures |r| == |s|
  {
    seq(|s|, i requires 0 <= i < |s| => t.toLower(s[i]))
  }

  /** Lowering commutes with taking a slice. */
  lemma LowerSlice(t: CharTables, s: string, i: nat, j: nat)
    requires i <= j <= |s|
    ensures Lower(t, s)[i..j] == Lower(t, s[i..j])
  {
  }

  /** `p` occurs in `s` starting at index `i`. */
  predicate OccursAt(s: string, p: string, i: int) {
    0 <= i && i + |p| <= |s| && s[i..i + |p|] == p
  }

  /** Ordinal `string.Contains`: `p` occurs in `s` at some start position. */
  predicate Contains(s: string, p: string) {
    exists i :: 0 <= i <= |s| - |p| && OccursAt(s, p, i)
  }

  /** A text that lacks the first character of `p` does not contain `p`. */
  lemma MissingFirstCharNotContained(s: string, p: string)
    requires p != [] && p[0] !in s
    ensures !Contains(s, p)
  {
    if i :| 0 <= i <= |s| - |p| && OccursAt(s, p, i) {
      assert false;
    }
  }

  /** Every character of `s` from index `lo` up to (not including) `hi` is white space. */
  predicate WhiteSpaceBetween(t: CharTables, s: string, lo: int, hi: int) {
    forall k :: lo <= k < hi && 0 <= k < |s| ==> t.isWhiteSpace(s[k])
  }

  /** `string.TrimStart()`: drop leading white space. */
  function TrimStart(t: CharTables, s: string): string
    decreases |s|
  {
    if s != [] && t.isWhiteSpace(s[0]) then TrimStart(t, s[1..]) else s
  }

  /** `TrimStart` leaves a suffix, after white space only, that does not start with white space. */
  lemma {:induction false} TrimStartIsSuffix(t: CharTables, s: string)
    ensures var r := TrimStart(t, s);
      |r| <= |s| && r == s[|s| - |r|..] &&
      WhiteSpaceBetween(t, s, 0, |s| - |r|) &&
      (r != [] ==> !t.isWhiteSpace(r[0]))
    decreases |s|
  {
    if s != [] && t.isWhiteSpace(s[0]) {
      TrimStartIsSuffix(t, s[1..]);
    }
  }

  /** `string.TrimEnd()`: drop trailing white space. */
  function TrimEnd(t: CharTables, s: string): string
    decreases |s|
  {
    if s != [] && t.isWhiteSpace(s[|s| - 1]) then TrimEnd(t, s[..|s| - 1]) else s
  }

  /** `TrimEnd` leaves a prefix, before white space only, that does not end with white space. */
  lemma {:induction false} TrimEndIsPrefix(t: CharTables, s: string)
    ensures var r := TrimEnd(t, s);
      |r| <= |s| && r == s[..|r|] &&
      WhiteSpaceBetween(t, s, |r|, |s|) &&
      (r != [] ==> !t.isWhiteSpace(r[|r| - 1]))
    decreases |s|
  {
    if s != [] && t.isWhiteSpace(s[|s| - 1]) {
      TrimEndIsPrefix(t, s[..|s| - 1]);
    }
  }

  /** `string.Trim()`: drop leading and trailing white space. */
  function Trim(t: CharTables, s: string): string {
    TrimEnd(t, TrimStart(t, s))
  }

  /**
   * `Trim` leaves `s` with white space only before and after the result,
   * and the result neither starts nor ends with white space.
   */
  lemma TrimIsInner(t: CharTables, s: string)
    ensures var r := Trim(t, s);
      exists i :: OccursAt(s, r, i) && WhiteSpaceBetween(t, s, 0, i) && WhiteSpaceBetween(t, s, i + |r|, |s|)
    ensures var r := Trim(t, s);
      r != [] ==> !t.isWhiteSpace(r[0]) && !t.isWhiteSpace(r[|r| - 1])
  {
    var m := TrimStart(t, s);
    var r := TrimEnd(t, m);
    TrimStartIsSuffix(t, s);
    TrimEndIsPrefix(t, m);
    var i := |s| - |m|;
    assert s[i..] == m;
    assert s[i..i + |r|] == m[..|r|];
    forall k | i + |r| <= k < |s| ensures t.isWhiteSpace(s[k]) {
      assert s[k] == m[k - i];
    }
    assert OccursAt(s, r, i);
  }

  /**
   * `Path.GetFileName`: the part of `path` after its last directory separator,
   * the whole path when it has none.
   */
  function FileName(t: CharTables, path: string): string
    decreases |path|
  {
    if path == [] || t.isDirectorySeparator(path[|path| - 1]) then []
    else FileName(t, path[..|path| - 1]) + [path[|path| - 1]]
  }

  /** A name free of separators, appended to a directory ending in a separator, is the file name. */
  lemma {:induction false} FileNameOfJoin(t: CharTables, dir: string, name: string)
    requires dir == [] || t.isDirectorySeparator(dir[|dir| - 1])
    requires forall k :: 0 <= k < |name| ==> !t.isDirectorySeparator(name[k])
    ensures FileName(t, dir + name) == name
    decreases |name|
  {
    var path := dir + name;
    if name == [] {
      assert path == dir;
    } else {
      var init := name[..|name| - 1];
      assert path[..|path| - 1] == dir + init;
      assert path[|path| - 1] == name[|name| - 1];
      FileNameOfJoin(t, dir, init);
      assert name == init + [name[|name| - 1]];
    }
  }

  /** The file name is the longest suffix of the path free of directory separators. */
  lemma {:induction false} FileNameIsLastComponent(t: CharTables, path: string)
    ensures var r := FileName(t, path);
      |r| <= |path| && r == path[|path| - |r|..] &&
      (forall k :: 0 <= k < |r| ==> !t.isDirectorySeparator(r[k])) &&
      (|r| < |path| ==> t.isDirectorySeparator(path[|path| - |r| - 1]))
    decreases |path|
  {
    if !(path == [] || t.isDirectorySeparator(path[|path| - 1])) {
      FileNameIsLastComponent(t, path[..|path| - 1]);
    }
  }
}
