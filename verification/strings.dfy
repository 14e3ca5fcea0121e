/** Text helpers shared by the option descriptor, the parser and the help formatter.
    Strings are sequences of characters; the standard-library calls of the source
    (`std::string::find`, `rfind(prefix, 0) == 0`, `std::setw` with `std::left`, C `isspace`)
    are written out here. */
module Strings {

  /** C `isspace` in the "C" locale: space, tab, newline, vertical tab, form feed, carriage return. */
  predicate IsSpace(c: char) {
    c == ' ' || ('\t' <= c <= '\r')
  }

  /** `s` begins with `prefix` (the source writes `s.rfind(prefix, 0) == 0`). */
  predicate StartsWith(s: string, prefix: string) {
    |prefix| <= |s| && s[..|prefix|] == prefix
  }

  /** Index of the first `c` in `s`, or `|s|` where the source gets `std::string::npos`. */
  function Find(s: string, c: char): (r: nat)
    ensures r <= |s|
    ensures r < |s| ==> s[r] == c
    ensures forall k :: 0 <= k < r ==> s[k] != c
  {
    if s == [] then 0
    else if s[0] == c then 0
    else 1 + Find(s[1..], c)
  }

  /** `n` blanks. */
  function Spaces(n: nat): (r: string)
    ensures |r| == n
    ensures forall k :: 0 <= k < n ==> r[k] == ' '
  {
    seq(n, _ => ' ')
  }

  /** `std::setw(width) << std::left << s`: pads on the right with blanks, never truncates. */
  function PadRight(s: string, width: nat): (r: string)
    ensures |r| == if |s| < width then width else |s|
    ensures r[..|s|] == s
    ensures forall k :: |s| <= k < |r| ==> r[k] == ' '
  {
    if |s| < width then s + Spaces(width - |s|) else s
  }

  /** The strings one after the other, with no separator. */
  function Concat(parts: seq<string>): string {
    if parts == [] then "" else parts[0] + Concat(parts[1..])
  }

  /** One more string at the end. */
  lemma {:induction false} ConcatStep(parts: seq<string>, k: nat)
    requires k < |parts|
    ensures Concat(parts[..k + 1]) == Concat(parts[..k]) + parts[k]
  {
    if k == 0 {
      assert parts[..1][1..] == [];
      assert parts[..0] == [];
    } else {
      ConcatStep(parts[1..], k - 1);
      assert parts[1..][..k] == parts[..k + 1][1..];
      assert parts[1..][..k - 1] == parts[..k][1..];
    }
  }

  /** One more string at the end of a text that starts with `head`. */
  lemma ConcatAppend(head: string, parts: seq<string>, k: nat)
    requires k < |parts|
    ensures head + Concat(parts[..k + 1]) == head + Concat(parts[..k]) + parts[k]
  {
    ConcatStep(parts, k);
  }

  /** The whole sequence once every part was taken. */
  lemma ConcatAll(parts: seq<string>)
    ensures Concat(parts[..|parts|]) == Concat(parts)
  {
    assert parts[..|parts|] == parts;
  }

  /** A single part is the text. */
  lemma ConcatOne(parts: seq<string>)
    requires |parts| == 1
    ensures Concat(parts) == parts[0]
  {
    assert parts[1..] == [];
  }
}
