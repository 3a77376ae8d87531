/**
 * The navigation bar of the dashboard (components/Navbar.js): the avatar
 * initials of the logged-in user and the role label.
 */
module Navbar {
  import opened Wrappers
  import opened Text
  import opened Seqs

  /** `word[0]`: the first character, or nothing for an empty word (an
      `undefined` that `join('')` drops). */
  function FirstChar(word: string): (r: string)
    ensures |r| <= 1 && (word != [] ==> r == [word[0]])
  {
    if word == [] then [] else [word[0]]
  }

  /** `name.split(' ').map(word => word[0]).slice(0, 2).join('').toUpperCase()`:
      the upper-cased first characters of the first two space-separated
      pieces. */
  function Initials(name: string): (r: string)
    ensures var pieces := Split(name, ' ');
      r == ToUpper(FirstChar(pieces[0]) + (if |pieces| > 1 then FirstChar(pieces[1]) else []))
  {
    var pieces := Split(name, ' ');
    var firsts := Take(Map(pieces, FirstChar), 2);
    assert |firsts| == 2 ==> firsts == [firsts[0]] + [firsts[1]];
    assert |firsts| == 2 ==> Join(firsts[1..], "") == firsts[1];
    ToUpper(Join(firsts, ""))
  }

  /** At most two letters, or up to four when a sharp s becomes "SS". */
  lemma InitialsLength(name: string)
    ensures |Initials(name)| <= 4
    ensures SharpS !in name ==> |Initials(name)| <= 2
  {
    var pieces := Split(name, ' ');
    var pre := FirstChar(pieces[0]) + (if |pieces| > 1 then FirstChar(pieces[1]) else []);
    if SharpS in pre {
      var j :| 0 <= j < |pre| && pre[j] == SharpS;
      if j < |FirstChar(pieces[0])| {
        assert pre[j] == pieces[0][0];
      } else {
        assert pre[j] == pieces[1][0];
      }
    }
  }

  /** `getUserInitials`: a missing name, or one yielding no letter, gives 'U'. */
  function UserInitials(name: Option<string>): (r: string)
    ensures r != []
    ensures name.None? ==> r == "U"
    ensures name.Some? && Initials(name.value) != [] ==> r == Initials(name.value)
    ensures name.Some? && Initials(name.value) == [] ==> r == "U"
  {
    var initials := if name.Some? then Initials(name.value) else [];
    if initials == [] then "U" else initials
  }

  /** An empty name has no initials, so the avatar shows 'U'. */
  lemma EmptyNameShowsU()
    ensures UserInitials(Some("")) == "U"
  {
    assert Split("", ' ') == [[]];
  }

  /** Two words: one letter from each. */
  lemma {:induction false} TwoWords(first: string, second: string, rest: string)
    requires first != [] && second != [] && ' ' !in first && ' ' !in second
    requires first[0] != SharpS && second[0] != SharpS
    ensures Initials(first + " " + second + rest) == [UpperChar(first[0]), UpperChar(second[0])]
  {
    assert first + " " + second + rest == first + [' '] + (second + rest);
    SplitAfterPiece(first, ' ', second + rest);
    assert (second + rest)[0] == second[0];
    FirstPieceStarts(second + rest);
  }

  lemma FirstPieceStarts(s: string)
    requires s != [] && s[0] != ' '
    ensures Split(s, ' ')[0] != [] && Split(s, ' ')[0][0] == s[0]
  {
  }

  /** A double space uses up the second slot with an empty piece, so only
      one letter shows. */
  lemma {:induction false} DoubleSpace(first: string, rest: string)
    requires first != [] && ' ' !in first && first[0] != SharpS
    ensures Initials(first + "  " + rest) == [UpperChar(first[0])]
  {
    assert first + "  " + rest == first + [' '] + ([' '] + rest);
    SplitAfterPiece(first, ' ', [' '] + rest);
    SplitAfterPiece([], ' ', rest);
    assert [] + [' '] + rest == [' '] + rest;
  }

  /** A sharp s upper-cases to two letters, so two such initials fill four. */
  lemma SharpSInitials()
    ensures Initials("\U{DF}a \U{DF}b") == "SSSS"
  {
    TwoWordsSharp();
    var pre := [SharpS] + [SharpS];
    assert FirstChar("\U{DF}a") + FirstChar("\U{DF}b") == pre;
    assert ToUpper([SharpS]) == "SS";
    ToUpperAppend([SharpS], [SharpS]);
  }

  lemma TwoWordsSharp()
    ensures Split("\U{DF}a \U{DF}b", ' ') == ["\U{DF}a", "\U{DF}b"]
  {
    assert "\U{DF}a \U{DF}b" == "\U{DF}a" + [' '] + "\U{DF}b";
    SplitAfterPiece("\U{DF}a", ' ', "\U{DF}b");
    SplitWithoutSeparator("\U{DF}b", ' ');
  }

  /** `formatRole`, identical in Navbar.js and Users.js: the two server role
      names get Portuguese labels, anything else is shown as it is. */
  function FormatRole(role: string): (r: string)
    ensures role == "STUDENT" ==> r == "Estudante"
    ensures role == "LIBRARIAN" ==> r == "Bibliotec\U{E1}rio"
    ensures role != "STUDENT" && role != "LIBRARIAN" ==> r == role
  {
    if role == "STUDENT" then "Estudante"
    else if role == "LIBRARIAN" then "Bibliotec\U{E1}rio"
    else role
  }

  /** Labelling a label changes nothing, and the two roles keep distinct labels. */
  lemma FormatRoleIdempotent(role: string)
    ensures FormatRole(FormatRole(role)) == FormatRole(role)
    ensures FormatRole("STUDENT") != FormatRole("LIBRARIAN")
  {
  }
}
