/** Character-level helpers the filters rely on: ASCII case folding, substring
    search (the database's case-insensitive "contains" lookup) and splitting a
    string on a separator character, as Python's str.split does. */
module Text {

  /** ASCII lower-casing of one character; every other character is kept. */
  function Lower(c: char): char {
    if 'A' <= c <= 'Z' then (c as int + 32) as char else c
  }

  function LowerString(s: string): (r: string)
    ensures |r| == |s|
    ensures forall i :: 0 <= i < |s| ==> r[i] == Lower(s[i])
  {
    if s == [] then [] else [Lower(s[0])] + LowerString(s[1..])
  }

  predicate StartsWith(s: string, prefix: string) {
    |prefix| <= |s| && s[..|prefix|] == prefix
  }

  /** `sub` occurs in `s` starting at position `i`. */
  predicate OccursAt(s: string, sub: string, i: int) {
    0 <= i && i + |sub| <= |s| && s[i..i + |sub|] == sub
  }

  /** Substring test, searching from the left. */
  predicate Contains(s: string, sub: string)
    decreases |s|
  {
    StartsWith(s, sub) || (s != [] && Contains(s[1..], sub))
  }

  /** The search agrees with the positional definition of "occurs somewhere". */
  lemma {:induction false} ContainsIffOccurs(s: string, sub: string)
    ensures Contains(s, sub) <==> exists i :: OccursAt(s, sub, i)
    decreases |s|
  {
    if s != [] {
      ContainsIffOccurs(s[1..], sub);
      if StartsWith(s, sub) {
        assert OccursAt(s, sub, 0);
      }
      if Contains(s[1..], sub) {
        var j :| OccursAt(s[1..], sub, j);
        assert s[j + 1..j + 1 + |sub|] == s[1..][j..j + |sub|];
        assert OccursAt(s, sub, j + 1);
      }
      if i :| OccursAt(s, sub, i) {
        if i == 0 {
          assert StartsWith(s, sub);
        } else {
          assert s[1..][i - 1..i - 1 + |sub|] == s[i..i + |sub|];
          assert OccursAt(s[1..], sub, i - 1);
        }
      }
    } else if sub == [] {
      assert OccursAt(s, sub, 0);
    }
  }

  /** Nothing longer than `s` occurs in it. */
  lemma {:induction false} ContainsNoLonger(s: string, sub: string)
    ensures Contains(s, sub) ==> |sub| <= |s|
    decreases |s|
  {
    if s != [] {
      ContainsNoLonger(s[1..], sub);
    }
  }

  /** The database's `icontains` lookup: case-insensitive substring. */
  predicate IContains(field: string, value: string): (b: bool)
    ensures b ==> |value| <= |field|
    ensures StartsWith(LowerString(field), LowerString(value)) ==> b
  {
    ContainsNoLonger(LowerString(field), LowerString(value));
    Contains(LowerString(field), LowerString(value))
  }

  /** `icontains` holds exactly when the lower-cased value occurs at some
      position of the lower-cased field. */
  lemma IContainsIffOccurs(field: string, value: string)
    ensures IContains(field, value) <==> exists i :: OccursAt(LowerString(field), LowerString(value), i)
  {
    var f, v := LowerString(field), LowerString(value);
    ContainsIffOccurs(f, v);
    if Contains(f, v) {
      var i :| OccursAt(f, v, i);
      assert OccursAt(LowerString(field), LowerString(value), i);
      assert IContains(field, value) && exists j :: OccursAt(LowerString(field), LowerString(value), j);
    }
  }

  /** The empty string is contained in every field. */
  lemma IContainsEmpty(field: string)
    ensures IContains(field, "")
  {
  }

  /** Python's `s.split(sep)`: the pieces between separators, keeping empty
      pieces; there is always at least one piece. */
  function Split(s: string, sep: char): (parts: seq<string>)
    ensures |parts| >= 1
    ensures forall i :: 0 <= i < |parts| ==> sep !in parts[i]
    decreases |s|
  {
    if s == [] then [[]]
    else
      var rest := Split(s[1..], sep);
      if s[0] == sep then [[]] + rest
      else [[s[0]] + rest[0]] + rest[1..]
  }

  /** Python's `sep.join(parts)`. */
  function Join(parts: seq<string>, sep: char): (s: string)
    decreases |parts|
  {
    if parts == [] then []
    else if |parts| == 1 then parts[0]
    else parts[0] + [sep] + Join(parts[1..], sep)
  }

  /** Splitting loses nothing: joining the pieces back gives the input. */
  lemma {:induction false} JoinSplit(s: string, sep: char)
    ensures Join(Split(s, sep), sep) == s
    decreases |s|
  {
    if s != [] {
      var rest := Split(s[1..], sep);
      JoinSplit(s[1..], sep);
      if s[0] == sep {
        assert Split(s, sep) == [[]] + rest;
        assert ([[]] + rest)[1..] == rest;
        assert Join(Split(s, sep), sep) == [sep] + s[1..];
      } else {
        var parts := [[s[0]] + rest[0]] + rest[1..];
        assert Split(s, sep) == parts;
        if |rest| == 1 {
          assert Join(parts, sep) == [s[0]] + rest[0];
        } else {
          assert parts[1..] == rest[1..];
          assert Join(rest, sep) == rest[0] + [sep] + Join(rest[1..], sep);
          assert Join(parts, sep) == [s[0]] + Join(rest, sep);
        }
      }
    }
  }

  /** A string without the separator is a single piece. */
  lemma {:induction false} SplitWithoutSep(s: string, sep: char)
    requires sep !in s
    ensures Split(s, sep) == [s]
    decreases |s|
  {
    if s != [] {
      assert sep !in s[1..];
      SplitWithoutSep(s[1..], sep);
      assert [s[0]] + s[1..] == s;
    }
  }

  /** A trailing separator adds one empty piece at the end. */
  lemma {:induction false} SplitTrailingSep(s: string, sep: char)
    ensures Split(s + [sep], sep) == Split(s, sep) + [[]]
    decreases |s|
  {
    if s == [] {
      assert [sep][1..] == [];
    } else {
      assert (s + [sep])[1..] == s[1..] + [sep];
      SplitTrailingSep(s[1..], sep);
      var rest := Split(s[1..], sep);
      var rest' := Split(s[1..] + [sep], sep);
      assert rest' == rest + [[]];
      if s[0] != sep {
        assert rest'[0] == rest[0];
        assert rest'[1..] == rest[1..] + [[]];
      }
    }
  }
}
