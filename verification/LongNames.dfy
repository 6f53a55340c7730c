/**
  Which entry of the option table a long name on the command line picks.  An
  exact match ends the search at once, but only if the search gets to it: two
  longer names ahead of it make the name ambiguous.
 */
module LongNames {
  import opened GetoptSpec

  /** The key is the entry's name or an abbreviation of it. */
  predicate Abbreviates(names: seq<LongOption>, key: string, i: nat)
    requires i < |names|
  {
    key <= names[i].name
  }

  predicate Exact(names: seq<LongOption>, key: string, i: nat)
    requires i < |names|
  {
    names[i].name == key
  }

  /** The key abbreviates two entries from i on and before end; the one found counts as the first of them. */
  ghost predicate TwoAbbreviated(names: seq<LongOption>, key: string, i: nat, end: nat, found: int)
    requires i <= end <= |names|
  {
    if found == -1 then exists a, b :: i <= a < b < end && Abbreviates(names, key, a) && Abbreviates(names, key, b)
    else exists a :: i <= a < end && Abbreviates(names, key, a)
  }

  /** The search up to the first exact match, or to the end where there is none. */
  lemma {:induction false} SearchUpTo(names: seq<LongOption>, key: string, i: nat, found: int, end: nat)
    requires i <= end <= |names| && -1 <= found < i
    requires forall a :: i <= a < end ==> !Exact(names, key, a)
    requires end < |names| ==> Exact(names, key, end)
    ensures
      var m := LongMatch(names, key, i, found);
      if TwoAbbreviated(names, key, i, end, found) then m == -2
      else if end < |names| then m == end
      else if found != -1 then m == found
      else if m == -1 then forall a :: i <= a < end ==> !Abbreviates(names, key, a)
      else i <= m < end && Abbreviates(names, key, m)
    decreases end - i
  {
    if i < end {
      if Abbreviates(names, key, i) {
        assert |names[i].name| != |key| by {
          assert !Exact(names, key, i);
        }
        if found == -1 {
          SearchUpTo(names, key, i + 1, i, end);
        }
      } else {
        SearchUpTo(names, key, i + 1, found, end);
      }
    }
  }

  /** An exact match wins exactly when no two names ahead of it are longer ones that it abbreviates. */
  lemma ExactMatchWins(names: seq<LongOption>, key: string, e: nat)
    requires e < |names| && Exact(names, key, e) && forall a :: 0 <= a < e ==> !Exact(names, key, a)
    ensures LongMatch(names, key, 0, -1) == e
       <==> !exists a, b :: 0 <= a < b < e && Abbreviates(names, key, a) && Abbreviates(names, key, b)
    ensures LongMatch(names, key, 0, -1) == e || LongMatch(names, key, 0, -1) == -2
  {
    SearchUpTo(names, key, 0, -1, e);
  }

  /** Where no name is matched exactly, a unique abbreviation is found, and one of two names is an error. */
  lemma AbbreviationMatches(names: seq<LongOption>, key: string)
    requires forall a :: 0 <= a < |names| ==> !Exact(names, key, a)
    ensures
      var m := LongMatch(names, key, 0, -1);
      && (m == -2 <==> exists a, b :: 0 <= a < b < |names| && Abbreviates(names, key, a) && Abbreviates(names, key, b))
      && (m == -1 <==> forall a :: 0 <= a < |names| ==> !Abbreviates(names, key, a))
      && (m >= 0 ==>
            Abbreviates(names, key, m) && forall a :: 0 <= a < |names| && Abbreviates(names, key, a) ==> a == m)
  {
    SearchUpTo(names, key, 0, -1, |names|);
  }

  /** "foo" is ambiguous in a table that lists it behind "foobar" and "foobaz". */
  lemma ExactMatchLost(names: seq<LongOption>)
    requires |names| == 3 && names[0].name == "foobar" && names[1].name == "foobaz" && names[2].name == "foo"
    ensures Exact(names, "foo", 2) && LongMatch(names, "foo", 0, -1) == -2
  {
    assert Abbreviates(names, "foo", 0) && Abbreviates(names, "foo", 1);
    assert "foobar" != "foo" && "foobaz" != "foo";
    ExactMatchWins(names, "foo", 2);
  }
}
