/** The `Full Name` column: `' '.join(filter(None, parts))` over the name cells. */
module FullNames {
  import opened Wrappers
  import opened Tokens

  /** `filter(None, parts)`: the non-empty strings, in order. */
  function NonEmpty(parts: seq<string>): (r: seq<string>)
    ensures forall i :: 0 <= i < |r| ==> r[i] != []
    ensures forall x :: x in r <==> x in parts && x != []
  {
    if parts == [] then []
    else (if parts[0] != [] then [parts[0]] else []) + NonEmpty(parts[1..])
  }

  /** Filtering is done piece by piece: it keeps the order of the parts and
      every repeat. With `NonEmptySingle` this determines `NonEmpty` on
      every input. */
  lemma {:induction false} NonEmptyConcat(a: seq<string>, b: seq<string>)
    ensures NonEmpty(a + b) == NonEmpty(a) + NonEmpty(b)
    decreases |a|
  {
    if a == [] {
      assert a + b == b;
    } else {
      var head := if a[0] != [] then [a[0]] else [];
      assert (a + b)[0] == a[0];
      assert (a + b)[1..] == a[1..] + b;
      assert NonEmpty(a + b) == head + NonEmpty(a[1..] + b);
      NonEmptyConcat(a[1..], b);
      assert head + (NonEmpty(a[1..]) + NonEmpty(b)) == (head + NonEmpty(a[1..])) + NonEmpty(b);
    }
  }

  /** A single part is kept exactly when it is non-empty. */
  lemma NonEmptySingle(p: string)
    ensures NonEmpty([p]) == if p == [] then [] else [p]
  {
    assert [p][1..] == [];
  }

  /** A name cell as `filter(None, …)` sees it after `fillna('')`: kept when
      present and non-empty. */
  function Kept(cell: Option<string>): seq<string> {
    if cell.GetOr("") == [] then [] else [cell.GetOr("")]
  }

  /** The three name cells with missing values read as empty (`fillna('')`). */
  function NameParts(first: Option<string>, second: Option<string>, surname: Option<string>): seq<string> {
    [first.GetOr(""), second.GetOr(""), surname.GetOr("")]
  }

  function FullName(first: Option<string>, second: Option<string>, surname: Option<string>): (r: string) {
    Join(NonEmpty(NameParts(first, second, surname)), ' ')
  }

  lemma JoinEmpty(parts: seq<string>, sep: char)
    requires forall i :: 0 <= i < |parts| ==> parts[i] != []
    ensures Join(parts, sep) == [] <==> parts == []
  {
    if |parts| > 1 {
      assert |Join(parts, sep)| >= |parts[0]|;
    }
  }

  /** Filtering leaves nothing exactly when every part is empty. */
  lemma {:induction false} NonEmptyNil(parts: seq<string>)
    ensures NonEmpty(parts) == [] <==> forall i :: 0 <= i < |parts| ==> parts[i] == []
  {
    if parts != [] {
      NonEmptyNil(parts[1..]);
      assert forall i :: 1 <= i < |parts| ==> parts[i] == parts[1..][i - 1];
    }
  }

  /** The full name is empty exactly when every name part is missing or empty. */
  lemma FullNameEmpty(first: Option<string>, second: Option<string>, surname: Option<string>)
    ensures FullName(first, second, surname) == []
        <==> first.GetOr("") == [] && second.GetOr("") == [] && surname.GetOr("") == []
  {
    var parts := NameParts(first, second, surname);
    JoinEmpty(NonEmpty(parts), ' ');
    NonEmptyNil(parts);
    assert parts[0] == first.GetOr("") && parts[1] == second.GetOr("") && parts[2] == surname.GetOr("");
  }

  /** When no name part contains a space, splitting the full name at spaces
      gives back exactly the non-empty parts in the order First Name, Second
      Name, Surname: there is no empty segment in the join. */
  lemma FullNameSegments(first: Option<string>, second: Option<string>, surname: Option<string>)
    requires ' ' !in first.GetOr("") && ' ' !in second.GetOr("") && ' ' !in surname.GetOr("")
    requires FullName(first, second, surname) != []
    ensures Split(FullName(first, second, surname), ' ') == NonEmpty(NameParts(first, second, surname))
    ensures forall i :: 0 <= i < |Split(FullName(first, second, surname), ' ')| ==>
      Split(FullName(first, second, surname), ' ')[i] != []
  {
    var all := NameParts(first, second, surname);
    var parts := NonEmpty(all);
    assert parts != [];
    forall i | 0 <= i < |parts| ensures ' ' !in parts[i] {
      assert parts[i] in all;
    }
    SplitJoin(parts, ' ');
  }

  /** Every presence pattern at once: the full name is the space-join of the
      present parts, in the order First Name, Second Name, Surname. */
  lemma FullNameOrder(first: Option<string>, second: Option<string>, surname: Option<string>)
    ensures FullName(first, second, surname) == Join(Kept(first) + Kept(second) + Kept(surname), ' ')
  {
    var p := NameParts(first, second, surname);
    assert p == [p[0]] + [p[1]] + [p[2]];
    NonEmptyConcat([p[0]] + [p[1]], [p[2]]);
    NonEmptyConcat([p[0]], [p[1]]);
    NonEmptySingle(p[0]);
    NonEmptySingle(p[1]);
    NonEmptySingle(p[2]);
  }

  /** With all three parts present: `First Second Surname`. */
  lemma FullNameAllParts(a: string, b: string, c: string)
    requires a != [] && b != [] && c != []
    ensures FullName(Some(a), Some(b), Some(c)) == a + " " + b + " " + c
  {
    var p := NameParts(Some(a), Some(b), Some(c));
    assert NonEmpty(p) == [a] + NonEmpty(p[1..]);
    assert p[1..][1..] == p[2..];
    assert NonEmpty(p[1..]) == [b] + NonEmpty(p[2..]);
    assert NonEmpty(p[2..]) == [c] + NonEmpty(p[2..][1..]);
    assert NonEmpty(p) == [a, b, c];
    assert [a, b, c][1..] == [b, c] && [b, c][1..] == [c];
    assert Join([b, c], ' ') == b + [' '] + c;
  }

  /** With no second name: `First Surname`, without a doubled space. */
  lemma FullNameNoSecond(a: string, second: Option<string>, c: string)
    requires a != [] && c != [] && second.GetOr("") == []
    ensures FullName(Some(a), second, Some(c)) == a + " " + c
  {
    var p := NameParts(Some(a), second, Some(c));
    assert NonEmpty(p) == [a] + NonEmpty(p[1..]);
    assert p[1..][1..] == p[2..];
    assert NonEmpty(p[1..]) == NonEmpty(p[2..]);
    assert NonEmpty(p[2..]) == [c] + NonEmpty(p[2..][1..]);
    assert NonEmpty(p) == [a, c];
    assert [a, c][1..] == [c];
    assert Join([a, c], ' ') == a + [' '] + c;
  }
}
