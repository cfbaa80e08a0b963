/** CleanSearchTerm (LuceneSearch.cs:211-225): trim, one pass of replacing
    double spaces by single ones, deletion of every '*', Unicode Form D
    decomposition, removal of non-spacing marks, lower-casing. */
module Normalizer {
  import opened Wrappers
  import opened NetStrings

  /** The Unicode tables the code reaches through the .NET runtime, kept
      abstract: String.Normalize(NormalizationForm.FormD), the test
      Char.GetUnicodeCategory(c) == UnicodeCategory.NonSpacingMark, and the
      character mapping of the culture-sensitive String.ToLower(). */
  datatype UnicodeTables = UnicodeTables(
    decompose: string -> string,
    isNonSpacingMark: char -> bool,
    toLower: char -> char)

  /** Decomposing a text without '*' yields no '*'. */
  ghost predicate DecomposeAddsNoStar(u: UnicodeTables) {
    forall s :: '*' !in s ==> '*' !in u.decompose(s)
  }

  /** Lower-casing maps no other character to '*'. */
  ghost predicate LowerAddsNoStar(u: UnicodeTables) {
    forall c :: c != '*' ==> u.toLower(c) != '*'
  }

  /** Lower-casing a lower-case character changes nothing. */
  ghost predicate LowerIdempotent(u: UnicodeTables) {
    forall c :: u.toLower(u.toLower(c)) == u.toLower(c)
  }

  /** Lower-casing never produces a non-spacing mark from another character. */
  ghost predicate LowerAddsNoMark(u: UnicodeTables) {
    forall c :: !u.isNonSpacingMark(c) ==> !u.isNonSpacingMark(u.toLower(c))
  }

  /** The LINQ filter Where(c => category(c) != NonSpacingMark). */
  function RemoveMarks(s: string, isMark: char -> bool): (r: string)
    ensures |r| <= |s|
    ensures forall i :: 0 <= i < |r| ==> !isMark(r[i])
  {
    if s == [] then []
    else if isMark(s[0]) then RemoveMarks(s[1..], isMark)
    else [s[0]] + RemoveMarks(s[1..], isMark)
  }

  /** The filter keeps every character that is not a mark, as often as it
      occurred. */
  lemma {:induction false} RemoveMarksKeepsBase(s: string, isMark: char -> bool, c: char)
    requires !isMark(c)
    ensures multiset(RemoveMarks(s, isMark))[c] == multiset(s)[c]
  {
    if s != [] {
      RemoveMarksKeepsBase(s[1..], isMark, c);
      assert s == [s[0]] + s[1..];
    }
  }

  /** The filter works character by character and keeps the order: filtering
      a concatenation is concatenating the filtered halves. */
  lemma {:induction false} RemoveMarksAppend(a: string, b: string, isMark: char -> bool)
    ensures RemoveMarks(a + b, isMark) == RemoveMarks(a, isMark) + RemoveMarks(b, isMark)
  {
    if a != [] {
      assert (a + b)[0] == a[0];
      assert (a + b)[1..] == a[1..] + b;
      RemoveMarksAppend(a[1..], b, isMark);
    } else {
      assert a + b == b;
    }
  }

  /** One character is dropped exactly when it is a mark. */
  lemma RemoveMarksOne(c: char, isMark: char -> bool)
    ensures RemoveMarks([c], isMark) == if isMark(c) then [] else [c]
  {
    assert [c][1..] == [];
  }

  /** String.ToLower() applied character by character. */
  function LowerAll(s: string, toLower: char -> char): string {
    seq(|s|, i requires 0 <= i < |s| => toLower(s[i]))
  }

  /** The first line of the cleaning: Trim().Replace("  ", " ").Replace("*", ""). */
  function Prepare(s: string): string {
    Replace(Replace(Trim(s), "  ", " "), "*", "")
  }

  /** The cleaning of a non-empty term. */
  function CleanText(s: string, u: UnicodeTables): string {
    LowerAll(RemoveMarks(u.decompose(Prepare(s)), u.isNonSpacingMark), u.toLower)
  }

  /** CleanSearchTerm: a null or empty term is returned as it is; any other
      term is cleaned and is never null afterwards. */
  function CleanSearchTerm(term: Option<string>, u: UnicodeTables): (r: Option<string>)
    ensures r.Some? <==> term.Some?
    ensures IsNullOrEmpty(term) ==> r == term
  {
    match term
    case None => None
    case Some(s) => if s == [] then term else Some(CleanText(s, u))
  }

  /** The prepared text holds no '*'. */
  lemma PrepareHasNoStar(s: string)
    ensures '*' !in Prepare(s)
  {
    ReplaceCharByEmpty(Replace(Trim(s), "  ", " "), '*');
  }

  /** Apart from spaces, the prepared text is the trimmed text with every
      '*' deleted: no other character is lost, added or moved. */
  lemma PrepareChangesOnlySpacesAndStars(s: string)
    ensures Without(Prepare(s), ' ') == Without(Without(Trim(s), ' '), '*')
  {
    var t := Replace(Trim(s), "  ", " ");
    ReplaceCharByEmpty(t, '*');
    WithoutCommutes(t, '*', ' ');
    ReplaceDoubleSpaceRemovesOnlySpaces(Trim(s));
  }

  lemma {:induction false} WithoutCommutes(s: string, c: char, d: char)
    ensures Without(Without(s, c), d) == Without(Without(s, d), c)
  {
    if s != [] {
      WithoutCommutes(s[1..], c, d);
    }
  }

  /** The cleaned term holds no '*', provided decomposition and lower-casing
      do not create one. */
  lemma CleanHasNoStar(term: Option<string>, u: UnicodeTables)
    requires DecomposeAddsNoStar(u) && LowerAddsNoStar(u)
    ensures CleanSearchTerm(term, u).Some? && term.value != [] ==> '*' !in CleanSearchTerm(term, u).value
  {
    if term.Some? && term.value != [] {
      var p := Prepare(term.value);
      PrepareHasNoStar(term.value);
      var m := RemoveMarks(u.decompose(p), u.isNonSpacingMark);
      RemoveMarksHasNoNew(u.decompose(p), u.isNonSpacingMark, '*');
      var r := LowerAll(m, u.toLower);
      forall i | 0 <= i < |r| ensures r[i] != '*' {
        assert m[i] in m;
      }
    }
  }

  /** The filter only ever drops characters. */
  lemma {:induction false} RemoveMarksHasNoNew(s: string, isMark: char -> bool, c: char)
    requires c !in s
    ensures c !in RemoveMarks(s, isMark)
  {
    if s != [] {
      assert s[1..] <= s || c !in s[1..];
      RemoveMarksHasNoNew(s[1..], isMark, c);
    }
  }

  /** The cleaned term holds no non-spacing mark, provided lower-casing does
      not create one. */
  lemma CleanHasNoMarks(term: Option<string>, u: UnicodeTables)
    requires LowerAddsNoMark(u)
    ensures CleanSearchTerm(term, u).Some? && term.value != [] ==>
      forall i :: 0 <= i < |CleanSearchTerm(term, u).value| ==> !u.isNonSpacingMark(CleanSearchTerm(term, u).value[i])
  {
  }

  /** Every character of the cleaned term is its own lower case, provided
      lower-casing is idempotent. */
  lemma CleanIsLowerCase(term: Option<string>, u: UnicodeTables)
    requires LowerIdempotent(u)
    ensures CleanSearchTerm(term, u).Some? && term.value != [] ==>
      forall i :: 0 <= i < |CleanSearchTerm(term, u).value| ==> u.toLower(CleanSearchTerm(term, u).value[i]) == CleanSearchTerm(term, u).value[i]
  {
  }

  /** Four inner spaces come out as two. */
  lemma FourSpacesBecomeTwo()
    ensures Prepare("a    b") == "a  b"
  {
    PrepareSpacedPair('a', 4, 'b');
    assert Spaces(4) == "    ";
    assert Spaces(2) == "  ";
    assert ['a'] + "    " + ['b'] == "a    b";
    assert ['a'] + "  " + ['b'] == "a  b";
  }

  /** Two inner spaces come out as one. */
  lemma TwoSpacesBecomeOne()
    ensures Prepare("a  b") == "a b"
  {
    PrepareSpacedPair('a', 2, 'b');
    assert Spaces(2) == "  ";
    assert Spaces(1) == " ";
    assert ['a'] + "  " + ['b'] == "a  b";
    assert ['a'] + " " + ['b'] == "a b";
  }

  /** The double-space pass is single, so preparing the prepared text
      again can change it further. */
  lemma PrepareIsNotIdempotent()
    ensures Prepare(Prepare("a    b")) != Prepare("a    b")
  {
    FourSpacesBecomeTwo();
    TwoSpacesBecomeOne();
    assert "a b" != "a  b" by { assert |"a b"| != |"a  b"|; }
  }

  /** Tables under which a text is already in its final form: decomposition
      leaves it alone, it holds no mark, and lower-casing keeps each of its
      characters. */
  ghost predicate TablesFix(u: UnicodeTables, s: string) {
    u.decompose(s) == s &&
    forall i :: 0 <= i < |s| ==> !u.isNonSpacingMark(s[i]) && u.toLower(s[i]) == s[i]
  }

  /** The filter keeps a text without marks whole. */
  lemma {:induction false} RemoveMarksNone(s: string, isMark: char -> bool)
    requires forall i :: 0 <= i < |s| ==> !isMark(s[i])
    ensures RemoveMarks(s, isMark) == s
  {
    if s != [] {
      RemoveMarksNone(s[1..], isMark);
      assert s == [s[0]] + s[1..];
    }
  }

  /** Under tables that fix the prepared text, cleaning is just preparing. */
  lemma CleanTextIsPrepare(s: string, u: UnicodeTables)
    requires TablesFix(u, Prepare(s))
    ensures CleanText(s, u) == Prepare(s)
  {
    var p := Prepare(s);
    RemoveMarksNone(p, u.isNonSpacingMark);
    assert LowerAll(p, u.toLower) == p;
  }

  /** Cleaning a cleaned term again changes it whenever preparing the
      prepared text does and the tables leave both texts alone. */
  lemma CleanTwiceDiffers(x: string, u: UnicodeTables)
    requires Prepare(x) != [] && Prepare(Prepare(x)) != Prepare(x)
    requires TablesFix(u, Prepare(x)) && TablesFix(u, Prepare(Prepare(x)))
    ensures CleanSearchTerm(CleanSearchTerm(Some(x), u), u) != CleanSearchTerm(Some(x), u)
  {
    CleanTextIsPrepare(x, u);
    CleanTextIsPrepare(Prepare(x), u);
  }

  /** So cleaning is not idempotent: "a    b" cleans to "a  b", which cleans
      to "a b", under any tables that leave those two texts alone (as the
      real ones do for ASCII letters and spaces). */
  lemma CleanIsNotIdempotent(u: UnicodeTables)
    requires TablesFix(u, "a  b") && TablesFix(u, "a b")
    ensures CleanSearchTerm(CleanSearchTerm(Some("a    b"), u), u) != CleanSearchTerm(Some("a    b"), u)
  {
    PrepareIsNotIdempotent();
    FourSpacesBecomeTwo();
    TwoSpacesBecomeOne();
    CleanTwiceDiffers("a    b", u);
  }

  /** Two letters with n spaces between them keep ceil(n/2) spaces. */
  lemma PrepareSpacedPair(x: char, n: nat, y: char)
    requires !IsWhiteSpace(x) && !IsWhiteSpace(y) && x != '*' && y != '*'
    ensures Prepare([x] + Spaces(n) + [y]) == [x] + Spaces((n + 1) / 2) + [y]
  {
    var s := [x] + Spaces(n) + [y];
    TrimKeepsInner(s);
    assert s[1..] == Spaces(n) + [y];
    ReplaceNoDoubleAtStart(s);
    ReplaceDoubleSpaceOnRunThen(n, [y]);
    ReplaceNoDoubleAtStart([y]);
    var r := [x] + Spaces((n + 1) / 2) + [y];
    assert Replace(s, "  ", " ") == r by {
      assert Replace([y], "  ", " ") == [y];
    }
    NoStarUnchanged(r);
  }

  lemma {:induction false} NoStarUnchanged(s: string)
    requires '*' !in s
    ensures Replace(s, "*", "") == s
  {
    ReplaceCharByEmpty(s, '*');
    WithoutAbsent(s, '*');
  }

  lemma {:induction false} WithoutAbsent(s: string, c: char)
    requires c !in s
    ensures Without(s, c) == s
  {
    if s != [] {
      assert s == [s[0]] + s[1..];
      WithoutAbsent(s[1..], c);
    }
  }

  /** Deleting '*' after trimming can leave white space at the end. */
  lemma PrepareCanEndInSpace()
    ensures Prepare("a *") == "a "
  {
    PrepareLetterSpaceStar('a');
    assert ['a', ' ', '*'] == "a *" && ['a', ' '] == "a ";
  }

  lemma PrepareLetterSpaceStar(x: char)
    requires !IsWhiteSpace(x) && x != '*'
    ensures Prepare([x, ' ', '*']) == [x, ' ']
  {
    var s := [x, ' ', '*'];
    TrimKeepsInner(s);
    ReplaceNoDoubleAtStart(s);
    assert s[1..] == [' ', '*'];
    ReplaceNoDoubleAtStart([' ', '*']);
    assert [' ', '*'][1..] == ['*'];
    ReplaceNoDoubleAtStart(['*']);
    assert Replace(s, "  ", " ") == s;
    ReplaceCharByEmpty(s, '*');
    assert s[1..][1..] == ['*'];
    assert Without(['*'], '*') == [];
  }

  /** A term made of stars only cleans to the empty string (decomposition
      and lower-casing leave the empty string empty). */
  lemma CleanStarsOnly(u: UnicodeTables)
    requires u.decompose([]) == []
    ensures CleanSearchTerm(Some("***"), u) == Some([])
  {
    var s := "***";
    PrepareStarsOnly(s);
    assert RemoveMarks(u.decompose(Prepare(s)), u.isNonSpacingMark) == [];
    assert CleanText(s, u) == LowerAll([], u.toLower) == [];
  }

  lemma PrepareStarsOnly(s: string)
    requires s != [] && forall i :: 0 <= i < |s| ==> s[i] == '*'
    ensures Prepare(s) == []
  {
    TrimKeepsInner(s);
    NoSpaceNoDoubleSpace(s);
    ReplaceAbsent(s, "  ", " ");
    ReplaceCharByEmpty(s, '*');
    WithoutEverything(s, '*');
  }

  lemma {:induction false} NoSpaceNoDoubleSpace(s: string)
    requires ' ' !in s
    ensures !Contains(s, "  ")
  {
    if s != [] {
      assert s[1..] <= s || ' ' !in s[1..];
      NoSpaceNoDoubleSpace(s[1..]);
      assert !StartsWith(s, "  ") by {
        if |s| >= 2 { assert s[..2][0] == s[0]; }
      }
    }
  }

  lemma {:induction false} WithoutEverything(s: string, c: char)
    requires forall i :: 0 <= i < |s| ==> s[i] == c
    ensures Without(s, c) == []
  {
    if s != [] {
      WithoutEverything(s[1..], c);
    }
  }

  lemma TrimKeepsInner(s: string)
    requires s != [] && !IsWhiteSpace(s[0]) && !IsWhiteSpace(s[|s| - 1])
    ensures Trim(s) == s
  {
  }

  lemma {:induction false} ReplaceDoubleSpaceOnRunThen(n: nat, t: string)
    requires t != [] && t[0] != ' '
    ensures Replace(Spaces(n) + t, "  ", " ") == Spaces((n + 1) / 2) + Replace(t, "  ", " ")
  {
    var s := Spaces(n) + t;
    if n >= 2 {
      SpacesThenTail(n, t);
      ReplaceAtDoubleSpace(s);
      ReplaceDoubleSpaceOnRunThen(n - 2, t);
      SpacesCons((n - 1) / 2);
    } else if n == 1 {
      assert s == [' '] + t;
      ReplaceNoDoubleAtStart(s);
    } else {
      assert s == t;
    }
  }

  lemma SpacesThenTail(n: nat, t: string)
    requires n >= 2
    ensures (Spaces(n) + t)[0] == ' ' && (Spaces(n) + t)[1] == ' '
    ensures (Spaces(n) + t)[2..] == Spaces(n - 2) + t
  {
  }

  lemma SpacesCons(n: nat)
    ensures " " + Spaces(n) == Spaces(n + 1)
  {
  }

  lemma ReplaceAtDoubleSpace(s: string)
    requires |s| >= 2 && s[0] == ' ' && s[1] == ' '
    ensures Replace(s, "  ", " ") == " " + Replace(s[2..], "  ", " ")
  {
    assert s[..2] == "  ";
  }

  lemma ReplaceNoDoubleAtStart(s: string)
    requires s != [] && (s[0] != ' ' || |s| < 2 || s[1] != ' ')
    ensures Replace(s, "  ", " ") == [s[0]] + Replace(s[1..], "  ", " ")
  {
    if |s| >= 2 {
      assert s[..2] != "  " by { assert s[..2][0] == s[0] && s[..2][1] == s[1]; }
    }
  }
}
