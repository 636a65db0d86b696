/** String operations the services use. Which characters are white space and
    how a string is lower-cased are left open. */
module Text {

  datatype Locale = Locale(strip: string -> string, lower: string -> string)

  function StripLeft(isSpace: char -> bool, s: string): string {
    if s != "" && isSpace(s[0]) then StripLeft(isSpace, s[1..]) else s
  }

  function StripRight(isSpace: char -> bool, s: string): string {
    if s != "" && isSpace(s[|s| - 1]) then StripRight(isSpace, s[..|s| - 1]) else s
  }

  function Strip(isSpace: char -> bool, s: string): string {
    StripRight(isSpace, StripLeft(isSpace, s))
  }

  /** The locale whose strip removes the given white space at both ends. */
  function LocaleOf(isSpace: char -> bool, lower: string -> string): Locale {
    Locale(s => Strip(isSpace, s), lower)
  }

  /** No white space at either end. */
  ghost predicate Trimmed(isSpace: char -> bool, s: string) {
    s != "" ==> !isSpace(s[0]) && !isSpace(s[|s| - 1])
  }

  lemma {:induction false} StripRightTrims(isSpace: char -> bool, s: string)
    requires s != "" ==> !isSpace(s[0])
    ensures Trimmed(isSpace, StripRight(isSpace, s))
  {
    if s != "" && isSpace(s[|s| - 1]) {
      StripRightTrims(isSpace, s[..|s| - 1]);
    }
  }

  lemma {:induction false} StripLeftHead(isSpace: char -> bool, s: string)
    ensures var r := StripLeft(isSpace, s); r != "" ==> !isSpace(r[0])
  {
    if s != "" && isSpace(s[0]) {
      StripLeftHead(isSpace, s[1..]);
    }
  }

  /** Stripping trims, and changes nothing that is already trimmed. */
  lemma StripTrims(isSpace: char -> bool, s: string)
    ensures Trimmed(isSpace, Strip(isSpace, s))
    ensures Trimmed(isSpace, s) ==> Strip(isSpace, s) == s
  {
    StripLeftHead(isSpace, s);
    StripRightTrims(isSpace, StripLeft(isSpace, s));
  }

  lemma {:induction false} StripRightShortens(isSpace: char -> bool, s: string)
    ensures |StripRight(isSpace, s)| <= |s|
  {
    if s != "" && isSpace(s[|s| - 1]) {
      StripRightShortens(isSpace, s[..|s| - 1]);
    }
  }

  lemma {:induction false} StripLeftShortens(isSpace: char -> bool, s: string)
    ensures |StripLeft(isSpace, s)| <= |s|
  {
    if s != "" && isSpace(s[0]) {
      StripLeftShortens(isSpace, s[1..]);
    }
  }

  lemma StripShortens(isSpace: char -> bool, s: string)
    ensures |Strip(isSpace, s)| <= |s|
  {
    StripLeftShortens(isSpace, s);
    StripRightShortens(isSpace, StripLeft(isSpace, s));
  }

  ghost predicate AllSpace(isSpace: char -> bool, s: string) {
    forall i :: 0 <= i < |s| ==> isSpace(s[i])
  }

  lemma {:induction false} StripLeftRemoves(isSpace: char -> bool, s: string) returns (removed: string)
    ensures s == removed + StripLeft(isSpace, s) && AllSpace(isSpace, removed)
  {
    removed := "";
    if s != "" && isSpace(s[0]) {
      removed := StripLeftRemoves(isSpace, s[1..]);
      assert s == [s[0]] + s[1..];
      removed := [s[0]] + removed;
    }
  }

  lemma {:induction false} StripRightRemoves(isSpace: char -> bool, s: string) returns (removed: string)
    ensures s == StripRight(isSpace, s) + removed && AllSpace(isSpace, removed)
  {
    removed := "";
    if s != "" && isSpace(s[|s| - 1]) {
      removed := StripRightRemoves(isSpace, s[..|s| - 1]);
      assert s == s[..|s| - 1] + [s[|s| - 1]];
      removed := removed + [s[|s| - 1]];
    }
  }

  /** Stripping removes white space and nothing else. */
  lemma StripRemovesSpace(isSpace: char -> bool, s: string) returns (left: string, right: string)
    ensures s == left + Strip(isSpace, s) + right
    ensures AllSpace(isSpace, left) && AllSpace(isSpace, right)
  {
    left := StripLeftRemoves(isSpace, s);
    right := StripRightRemoves(isSpace, StripLeft(isSpace, s));
  }
}
