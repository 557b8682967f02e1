/** The string operations the call-data code chains together:
    `String.prototype.replace` with a global one-character-class pattern and an
    empty replacement, and `String.prototype.split` on a one-character separator.
    `Join` (`Array.prototype.join`) is the inverse of `Split`. */
module Text {

  /** `s` with every character satisfying `drop` deleted. */
  function Without(s: string, drop: char -> bool): (r: string)
    ensures |r| <= |s|
    ensures forall i :: 0 <= i < |r| ==> !drop(r[i])
  {
    if s == [] then []
    else (if drop(s[0]) then [] else [s[0]]) + Without(s[1..], drop)
  }

  /** Every character that is not deleted occurs as often as before. */
  lemma {:induction false} WithoutCounts(s: string, drop: char -> bool, c: char)
    ensures multiset(Without(s, drop))[c] == if drop(c) then 0 else multiset(s)[c]
  {
    if s != [] {
      WithoutCounts(s[1..], drop, c);
      var h := if drop(s[0]) then [] else [s[0]];
      assert Without(s, drop) == h + Without(s[1..], drop);
      assert multiset(Without(s, drop)) == multiset(h) + multiset(Without(s[1..], drop));
      assert s == [s[0]] + s[1..];
      assert multiset(s) == multiset([s[0]]) + multiset(s[1..]);
    }
  }

  /** Every kept character, at once: its count is unchanged by the deletion. */
  lemma WithoutKeepsCounts(s: string, drop: char -> bool)
    ensures forall c :: !drop(c) ==> multiset(Without(s, drop))[c] == multiset(s)[c]
  {
    forall c | !drop(c)
      ensures multiset(Without(s, drop))[c] == multiset(s)[c]
    {
      WithoutCounts(s, drop, c);
    }
  }

  /** Deleting works piece by piece, so the kept characters stay in their order. */
  lemma {:induction false} WithoutConcat(x: string, y: string, drop: char -> bool)
    ensures Without(x + y, drop) == Without(x, drop) + Without(y, drop)
  {
    if x == [] {
      assert x + y == y;
    } else {
      assert (x + y)[1..] == x[1..] + y;
      WithoutConcat(x[1..], y, drop);
    }
  }

  /** A string with nothing to delete is left as it is. */
  lemma {:induction false} WithoutKeeps(s: string, drop: char -> bool)
    requires forall i :: 0 <= i < |s| ==> !drop(s[i])
    ensures Without(s, drop) == s
  {
    if s != [] {
      WithoutKeeps(s[1..], drop);
    }
  }

  /** Deleting twice is deleting once. */
  lemma WithoutIdempotent(s: string, drop: char -> bool)
    ensures Without(Without(s, drop), drop) == Without(s, drop)
  {
    WithoutKeeps(Without(s, drop), drop);
  }

  /** The fields joined with `sep` between them. */
  function Join(fields: seq<string>, sep: char): string {
    if fields == [] then []
    else if |fields| == 1 then fields[0]
    else fields[0] + [sep] + Join(fields[1..], sep)
  }

  /** The pieces of `s` between occurrences of `sep`; the empty string is one empty field. */
  function Split(s: string, sep: char): (r: seq<string>)
    ensures |r| >= 1
    ensures forall i :: 0 <= i < |r| ==> sep !in r[i]
  {
    if s == [] then [[]]
    else
      var rest := Split(s[1..], sep);
      if s[0] == sep then [[]] + rest
      else [[s[0]] + rest[0]] + rest[1..]
  }

  /** There is one field more than there are separators. */
  lemma {:induction false} SplitCount(s: string, sep: char)
    ensures |Split(s, sep)| == multiset(s)[sep] + 1
  {
    if s != [] {
      SplitCount(s[1..], sep);
      assert s == [s[0]] + s[1..];
    }
  }

  /** Joining the fields with the separator gives back the string. */
  lemma {:induction false} JoinSplit(s: string, sep: char)
    ensures Join(Split(s, sep), sep) == s
  {
    if s != [] {
      JoinSplit(s[1..], sep);
      var rest := Split(s[1..], sep);
      if s[0] == sep {
        assert Split(s, sep) == [[]] + rest;
        assert ([[]] + rest)[1..] == rest;
      } else {
        var r := [[s[0]] + rest[0]] + rest[1..];
        assert Split(s, sep) == r;
        assert r[1..] == rest[1..];
        if |rest| > 1 {
          assert Join(rest, sep) == rest[0] + [sep] + Join(rest[1..], sep);
        }
      }
    }
  }

  /** A string without the separator is a single field. */
  lemma {:induction false} SplitNoSeparator(x: string, sep: char)
    requires sep !in x
    ensures Split(x, sep) == [x]
  {
    if x != [] {
      SplitNoSeparator(x[1..], sep);
      assert x[0] != sep;
      assert [x[0]] + x[1..] == x;
    }
  }

  /** A field followed by the separator splits off as the first field. */
  lemma {:induction false} SplitFirstField(x: string, y: string, sep: char)
    requires sep !in x
    ensures Split(x + [sep] + y, sep) == [x] + Split(y, sep)
  {
    var s := x + [sep] + y;
    if x == [] {
      assert s == [sep] + y && s[1..] == y;
    } else {
      assert s[1..] == x[1..] + [sep] + y;
      SplitFirstField(x[1..], y, sep);
      assert s[0] == x[0] && x[0] != sep;
      assert [x[0]] + x[1..] == x;
    }
  }

  /** Splitting undoes joining fields that do not contain the separator. */
  lemma {:induction false} SplitJoin(fields: seq<string>, sep: char)
    requires |fields| >= 1
    requires forall i :: 0 <= i < |fields| ==> sep !in fields[i]
    ensures Split(Join(fields, sep), sep) == fields
  {
    if |fields| == 1 {
      SplitNoSeparator(fields[0], sep);
    } else {
      SplitJoin(fields[1..], sep);
      SplitFirstField(fields[0], Join(fields[1..], sep), sep);
      assert fields == [fields[0]] + fields[1..];
    }
  }

  /** Joining at least two fields puts the first two, with one separator
      between them, in front of what follows. */
  lemma JoinFirstTwo(r: seq<string>, sep: char)
    requires |r| >= 2
    ensures var k := |r[0]| + 1 + |r[1]|;
      && k <= |Join(r, sep)|
      && Join(r, sep)[..k] == r[0] + [sep] + r[1]
      && (k == |Join(r, sep)| || Join(r, sep)[k] == sep)
  {
    var head := r[0] + [sep] + r[1];
    if |r| == 2 {
      assert r[1..] == [r[1]];
      assert Join(r, sep) == head;
    } else {
      assert Join(r[1..], sep) == r[1] + [sep] + Join(r[2..], sep);
      assert Join(r, sep) == head + [sep] + Join(r[2..], sep);
    }
  }

  /** The first field is the text before the first separator; when there is
      a separator, the second field is the text between it and the next
      separator or the end. */
  lemma SplitFirstTwo(s: string, sep: char)
    ensures sep !in s ==> Split(s, sep) == [s]
    ensures sep in s ==>
      var r := Split(s, sep);
      && |r| >= 2
      && var k := |r[0]| + 1 + |r[1]|;
      && k <= |s|
      && s[..k] == r[0] + [sep] + r[1]
      && (k == |s| || s[k] == sep)
  {
    var r := Split(s, sep);
    JoinSplit(s, sep);
    SplitCount(s, sep);
    if sep in s {
      assert multiset(s)[sep] > 0;
      JoinFirstTwo(r, sep);
    } else {
      assert multiset(s)[sep] == 0;
      SplitNoSeparator(s, sep);
    }
  }
}
