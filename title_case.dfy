/**
  Python's str.title() on ASCII text: the scripts title-case the country
  name the user gives before matching it against the country column, so
  'england' selects the 'England' rows.
 */
module TitleCase {

  predicate IsUpper(c: char) { 'A' <= c <= 'Z' }

  predicate IsLower(c: char) { 'a' <= c <= 'z' }

  /** A character with case; in ASCII only the letters have one. */
  predicate IsCased(c: char) { IsUpper(c) || IsLower(c) }

  function ToUpper(c: char): char { if IsLower(c) then (c as int - 32) as char else c }

  function ToLower(c: char): char { if IsUpper(c) then (c as int + 32) as char else c }

  /**
    str.title() continued from a point where the previous character was, or
    was not, cased: a cased character after a cased one is lowered, any
    other is raised; characters without case are left as they are.
   */
  function TitleFrom(s: string, previousCased: bool): (r: string)
    ensures |r| == |s|
  {
    if s == [] then []
    else [if previousCased then ToLower(s[0]) else ToUpper(s[0])] + TitleFrom(s[1..], IsCased(s[0]))
  }

  /** select_country.title() */
  function Title(s: string): (r: string)
    ensures |r| == |s|
    ensures |s| > 0 ==> r[0] == ToUpper(s[0])
  {
    TitleFrom(s, false)
  }

  /** Whether the character before position i of s (or the start) lets s[i] become upper case. */
  predicate StartsWord(s: string, i: nat)
    requires i < |s|
  {
    i == 0 || !IsCased(s[i - 1])
  }

  // ---------------------------------------------------------------- lemmas

  lemma {:induction false} TitleFromAt(s: string, previousCased: bool, i: nat)
    requires i < |s|
    ensures TitleFrom(s, previousCased)[i] ==
      if (i == 0 && !previousCased) || (i > 0 && !IsCased(s[i - 1])) then ToUpper(s[i]) else ToLower(s[i])
  {
    if i > 0 {
      TitleFromAt(s[1..], IsCased(s[0]), i - 1);
    }
  }

  /**
    Character by character: the first letter of each run of letters is raised
    and the others lowered; the length is kept.
   */
  lemma TitleAt(s: string, i: nat)
    requires i < |s|
    ensures |Title(s)| == |s|
    ensures Title(s)[i] == if StartsWord(s, i) then ToUpper(s[i]) else ToLower(s[i])
  {
    TitleFromAt(s, false, i);
  }

  lemma {:induction false} TitleFromIdempotent(s: string, previousCased: bool)
    ensures TitleFrom(TitleFrom(s, previousCased), previousCased) == TitleFrom(s, previousCased)
  {
    if s != [] {
      var t := TitleFrom(s, previousCased);
      assert t[1..] == TitleFrom(s[1..], IsCased(s[0]));
      assert IsCased(t[0]) == IsCased(s[0]);
      TitleFromIdempotent(s[1..], IsCased(s[0]));
    }
  }

  /** Title-casing a name twice changes nothing more. */
  lemma TitleIdempotent(s: string)
    ensures Title(Title(s)) == Title(s)
  {
    TitleFromIdempotent(s, false);
  }

  /** Names that differ only in the case of their letters are normalised to the same name. */
  lemma TitleIgnoresCase(a: string, b: string)
    requires |a| == |b|
    requires forall i :: 0 <= i < |a| ==> ToLower(a[i]) == ToLower(b[i])
    ensures Title(a) == Title(b)
  {
    forall i | 0 <= i < |a|
      ensures Title(a)[i] == Title(b)[i]
    {
      TitleAt(a, i);
      TitleAt(b, i);
      if i > 0 {
        assert ToLower(a[i - 1]) == ToLower(b[i - 1]);
      }
    }
  }

  /** The population script's call country_year_population('england', 2000) matches 'England'. */
  lemma TitleOfEngland()
    ensures Title("england") == "England"
  {
    var s := "england";
    forall i | 0 <= i < |s|
      ensures Title(s)[i] == "England"[i]
    {
      TitleAt(s, i);
    }
  }
}
