/** The JavaScript string operations the core relies on: `toLowerCase` (ASCII letters only),
    `indexOf`, `includes`, `startsWith`, `replace` of a literal and `join`. `Split` is not used
    by the core: it is here as the inverse of `join`, to state what a joined block contains. */
module Text {

  /** Lower-cases one ASCII letter; every other character is left as it is. */
  function LowerChar(c: char): char {
    if 'A' <= c <= 'Z' then (c as int + 32) as char else c
  }

  /** `s.toLowerCase()`, restricted to ASCII letters. */
  function ToLowerCase(s: string): (r: string)
    ensures |r| == |s|
    ensures forall i :: 0 <= i < |s| ==> r[i] == LowerChar(s[i])
  {
    if s == [] then [] else [LowerChar(s[0])] + ToLowerCase(s[1..])
  }

  /** Lower-casing an already lower-cased string changes nothing. */
  lemma ToLowerCaseIdempotent(s: string)
    ensures ToLowerCase(ToLowerCase(s)) == ToLowerCase(s)
  {
    var t := ToLowerCase(s);
    assert forall i :: 0 <= i < |t| ==> ToLowerCase(t)[i] == t[i];
  }

  /** Lower-casing distributes over concatenation. */
  lemma ToLowerCaseConcat(a: string, b: string)
    ensures ToLowerCase(a + b) == ToLowerCase(a) + ToLowerCase(b)
  {
    var l, r := ToLowerCase(a + b), ToLowerCase(a) + ToLowerCase(b);
    assert forall i :: 0 <= i < |l| ==> l[i] == r[i];
  }

  /** `needle` occurs in `hay` starting at index `i`. */
  predicate OccursAt(hay: string, needle: string, i: int) {
    0 <= i <= |hay| - |needle| && hay[i..i + |needle|] == needle
  }

  lemma OccursAtTail(hay: string, needle: string, j: int)
    requires hay != [] && 0 <= j
    ensures OccursAt(hay[1..], needle, j) <==> OccursAt(hay, needle, j + 1)
  {
    if j <= |hay| - 1 - |needle| {
      assert hay[1..][j..j + |needle|] == hay[j + 1..j + 1 + |needle|];
    }
  }

  /** `hay.indexOf(needle)`: the first index where `needle` occurs, or -1 when it occurs nowhere. */
  function IndexOf(hay: string, needle: string): (r: int)
    ensures r == -1 <==> forall i :: !OccursAt(hay, needle, i)
    ensures r != -1 ==> OccursAt(hay, needle, r) && forall j :: 0 <= j < r ==> !OccursAt(hay, needle, j)
    decreases |hay|
  {
    if needle <= hay then
      assert OccursAt(hay, needle, 0);
      0
    else if hay == [] then
      assert |needle| > 0;
      -1
    else
      var k := IndexOf(hay[1..], needle);
      assert !OccursAt(hay, needle, 0);
      assert forall j :: 0 <= j ==> (OccursAt(hay[1..], needle, j) <==> OccursAt(hay, needle, j + 1)) by {
        forall j | 0 <= j ensures OccursAt(hay[1..], needle, j) <==> OccursAt(hay, needle, j + 1) {
          OccursAtTail(hay, needle, j);
        }
      }
      if k == -1 then
        assert forall i :: !OccursAt(hay, needle, i) by {
          forall i ensures !OccursAt(hay, needle, i) {
            if 1 <= i { assert !OccursAt(hay[1..], needle, i - 1); }
          }
        }
        -1
      else
        assert forall j :: 0 <= j < k + 1 ==> !OccursAt(hay, needle, j) by {
          forall j | 0 <= j < k + 1 ensures !OccursAt(hay, needle, j) {
            if 1 <= j { assert !OccursAt(hay[1..], needle, j - 1); }
          }
        }
        k + 1
  }

  /** `hay.includes(needle)`, which JavaScript defines as `indexOf(needle) !== -1`. */
  function Includes(hay: string, needle: string): (b: bool)
    ensures b <==> exists i :: OccursAt(hay, needle, i)
  {
    IndexOf(hay, needle) != -1
  }

  /** `s.replace(pattern, '')` with a literal pattern: only the FIRST occurrence, wherever it is,
      is removed. */
  function RemoveFirst(s: string, pattern: string): (r: string)
    ensures !Includes(s, pattern) ==> r == s
    ensures Includes(s, pattern) ==>
      exists i :: OccursAt(s, pattern, i) && (forall j :: 0 <= j < i ==> !OccursAt(s, pattern, j))
        && r == s[..i] + s[i + |pattern|..]
  {
    var i := IndexOf(s, pattern);
    if i == -1 then s
    else
      var r := s[..i] + s[i + |pattern|..];
      assert OccursAt(s, pattern, i) && (forall j :: 0 <= j < i ==> !OccursAt(s, pattern, j)) && r == s[..i] + s[i + |pattern|..];
      r
  }

  /** A string that begins with the pattern loses exactly that leading copy. */
  lemma RemoveFirstLeading(pattern: string, t: string)
    ensures RemoveFirst(pattern + t, pattern) == t
  {
    assert OccursAt(pattern + t, pattern, 0);
    assert IndexOf(pattern + t, pattern) == 0;
  }

  /** `parts.join(sep)`. */
  function Join(parts: seq<string>, sep: string): string {
    if |parts| == 0 then ""
    else if |parts| == 1 then parts[0]
    else parts[0] + sep + Join(parts[1..], sep)
  }

  /** Joining one more part appends the separator and that part. */
  lemma {:induction false} JoinSnoc(parts: seq<string>, x: string, sep: string)
    ensures Join(parts + [x], sep) == if parts == [] then x else Join(parts, sep) + sep + x
  {
    if |parts| > 1 {
      assert (parts + [x])[1..] == parts[1..] + [x];
      JoinSnoc(parts[1..], x, sep);
    } else if |parts| == 1 {
      assert (parts + [x])[1..] == [x];
    }
  }

  /** `s.split(sep)` for a one-character separator; like JavaScript, it never yields an empty list.
      Only used to state that `Split` undoes `Join`. */
  function Split(s: string, sep: char): (r: seq<string>)
    ensures |r| >= 1
    decreases |s|
  {
    if s == [] then [""]
    else
      var rest := Split(s[1..], sep);
      if s[0] == sep then [""] + rest else [[s[0]] + rest[0]] + rest[1..]
  }

  /** A string without the separator splits into itself. */
  lemma {:induction false} SplitWithoutSeparator(s: string, sep: char)
    requires sep !in s
    ensures Split(s, sep) == [s]
  {
    if s != [] {
      assert sep !in s[1..] by {
        forall k | 0 <= k < |s[1..]| ensures s[1..][k] != sep { assert s[1..][k] == s[k + 1]; }
      }
      SplitWithoutSeparator(s[1..], sep);
      assert [s[0]] + s[1..] == s;
    }
  }

  /** Splitting at a separator between two strings splits each side independently. */
  lemma {:induction false} SplitAtSeparator(a: string, b: string, sep: char)
    ensures Split(a + [sep] + b, sep) == Split(a, sep) + Split(b, sep)
  {
    if a == [] {
      assert a + [sep] + b == [sep] + b;
      assert ([sep] + b)[1..] == b;
    } else {
      assert (a + [sep] + b)[1..] == a[1..] + [sep] + b;
      assert (a + [sep] + b)[0] == a[0];
      SplitAtSeparator(a[1..], b, sep);
    }
  }

  /** `split` undoes `join` when no part contains the separator. */
  lemma {:induction false} SplitJoin(parts: seq<string>, sep: char)
    requires |parts| > 0
    requires forall k :: 0 <= k < |parts| ==> sep !in parts[k]
    ensures Split(Join(parts, [sep]), sep) == parts
  {
    if |parts| == 1 {
      SplitWithoutSeparator(parts[0], sep);
    } else {
      SplitJoin(parts[1..], sep);
      SplitWithoutSeparator(parts[0], sep);
      SplitAtSeparator(parts[0], Join(parts[1..], [sep]), sep);
      assert [parts[0]] + parts[1..] == parts;
    }
  }
}
