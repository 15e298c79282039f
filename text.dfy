/** The three string operations the widget uses: `toLowerCase` (on ASCII
    letters), `includes` (substring search) and `Array.prototype.join`. */
module Text {

  /** One character of `String.prototype.toLowerCase`, restricted to ASCII. */
  function LowerChar(c: char): (r: char)
    ensures 'A' <= c <= 'Z' ==> r as int == c as int + 32
    ensures !('A' <= c <= 'Z') ==> r == c
  {
    if 'A' <= c <= 'Z' then (c as int + ('a' as int - 'A' as int)) as char else c
  }

  predicate IsUpper(c: char) {
    'A' <= c <= 'Z'
  }

  /** No ASCII capital letter occurs in `s`. */
  predicate IsLowerCase(s: string) {
    forall i :: 0 <= i < |s| ==> !IsUpper(s[i])
  }

  /** `String.prototype.toLowerCase` on ASCII: character by character, same length. */
  function Lower(s: string): (r: string)
    ensures |r| == |s| && IsLowerCase(r)
    ensures forall i :: 0 <= i < |s| && IsUpper(s[i]) ==> r[i] as int == s[i] as int + 32
    ensures forall i :: 0 <= i < |s| && !IsUpper(s[i]) ==> r[i] == s[i]
  {
    seq(|s|, i requires 0 <= i < |s| => LowerChar(s[i]))
  }

  lemma LowerIsLowerCase(s: string)
    ensures IsLowerCase(Lower(s))
  {
  }

  /** Lower-casing leaves an already lower-case string alone, so lower-casing twice is lower-casing once. */
  lemma LowerFixesLowerCase(s: string)
    ensures IsLowerCase(s) <==> Lower(s) == s
  {
    if Lower(s) == s {
      LowerIsLowerCase(s);
    }
  }

  lemma LowerIdempotent(s: string)
    ensures Lower(Lower(s)) == Lower(s)
  {
    LowerIsLowerCase(s);
    LowerFixesLowerCase(Lower(s));
  }

  /** `t` is a prefix of `s`. */
  predicate StartsWith(s: string, t: string) {
    |t| <= |s| && s[..|t|] == t
  }

  /** `t` occurs in `s` at index `i`. */
  ghost predicate OccursAt(t: string, s: string, i: int) {
    0 <= i <= |s| - |t| && s[i..i + |t|] == t
  }

  /** Reference definition of substring: an index at which the slice of `s` is `t`. */
  ghost predicate IsSubstring(t: string, s: string) {
    exists i :: OccursAt(t, s, i)
  }

  /** `String.prototype.includes`, searching from the front: it holds exactly when `t` is a
      substring of `s`. */
  function Includes(s: string, t: string): (r: bool)
    ensures r <==> IsSubstring(t, s)
    decreases |s|
  {
    if StartsWith(s, t) then
      assert OccursAt(t, s, 0) by {
        assert s[0..0 + |t|] == s[..|t|];
      }
      true
    else if s == [] then
      false
    else
      SubstringOfTail(s, t);
      Includes(s[1..], t)
  }

  /** When `t` does not start `s`, it occurs in `s` exactly when it occurs in the tail of `s`;
      and nothing but the empty string occurs in the empty string. */
  lemma SubstringOfTail(s: string, t: string)
    requires !StartsWith(s, t)
    ensures s == [] ==> !IsSubstring(t, s)
    ensures s != [] ==> (IsSubstring(t, s) <==> IsSubstring(t, s[1..]))
  {
    if IsSubstring(t, s) {
      var i :| OccursAt(t, s, i);
      assert i != 0 by {
        assert s[..|t|] == s[0..0 + |t|];
      }
      assert s[1..][i - 1..i - 1 + |t|] == s[i..i + |t|];
      assert OccursAt(t, s[1..], i - 1);
    }
    if s != [] && IsSubstring(t, s[1..]) {
      var i :| OccursAt(t, s[1..], i);
      assert s[i + 1..i + 1 + |t|] == t by {
        forall k | 0 <= k < |t| ensures s[i + 1..i + 1 + |t|][k] == t[k] {
          assert s[1..][i..i + |t|][k] == t[k];
        }
      }
      assert OccursAt(t, s, i + 1);
    }
  }

  /** A term with a character that `s` lacks is not included in `s`. */
  lemma MissingCharExcludes(s: string, t: string, j: nat)
    requires j < |t| && t[j] !in s
    ensures !Includes(s, t)
  {
  }

  /** A character missing from `s` in both cases is missing from `Lower(s)`. */
  lemma LowerLacks(s: string, c: char)
    requires c !in s
    requires 'a' <= c <= 'z' ==> (c as int - 32) as char !in s
    ensures c !in Lower(s)
  {
    forall i | 0 <= i < |s| ensures Lower(s)[i] != c {
      if IsUpper(s[i]) && LowerChar(s[i]) == c {
        assert s[i] == (c as int - 32) as char;
      }
    }
  }

  /** Every string includes the empty string, so an empty search term matches everything. */
  lemma IncludesEmpty(s: string)
    ensures Includes(s, "")
  {
    assert s[..0] == "";
  }

  /** `Array.prototype.join`: the parts with `sep` between consecutive ones; `""` for no parts,
      the part itself for one. Every part occurs in the joined text. */
  function Join(parts: seq<string>, sep: string): (r: string)
    ensures parts == [] ==> r == ""
    ensures |parts| == 1 ==> r == parts[0]
    ensures forall k :: 0 <= k < |parts| ==> IsSubstring(parts[k], r)
    decreases |parts|
  {
    if |parts| == 0 then ""
    else if |parts| == 1 then
      assert OccursAt(parts[0], parts[0], 0) by {
        assert parts[0][0..|parts[0]|] == parts[0];
      }
      parts[0]
    else
      var rest := Join(parts[1..], sep);
      JoinedPartsOccur(parts[0], sep, parts[1..], rest);
      assert forall k :: 1 <= k < |parts| ==> parts[k] == parts[1..][k - 1];
      parts[0] + sep + rest
  }

  /** Prefixing a part and a separator keeps every part of `rest` in it, and adds the new part. */
  lemma JoinedPartsOccur(first: string, sep: string, tail: seq<string>, rest: string)
    requires forall k :: 0 <= k < |tail| ==> IsSubstring(tail[k], rest)
    ensures IsSubstring(first, first + sep + rest)
    ensures forall k :: 0 <= k < |tail| ==> IsSubstring(tail[k], first + sep + rest)
  {
    var r := first + sep + rest;
    assert r[0..0 + |first|] == first;
    assert OccursAt(first, r, 0);
    forall k | 0 <= k < |tail| ensures IsSubstring(tail[k], r) {
      var i :| OccursAt(tail[k], rest, i);
      var d := |first| + |sep|;
      assert r[d + i..d + i + |tail[k]|] == rest[i..i + |tail[k]|];
      assert OccursAt(tail[k], r, d + i);
    }
  }

  /** Appending a part appends a separator and the part: join builds its result left to right. */
  lemma {:induction false} JoinSnoc(parts: seq<string>, last: string, sep: string)
    ensures Join(parts + [last], sep) == if parts == [] then last else Join(parts, sep) + sep + last
    decreases |parts|
  {
    if |parts| >= 2 {
      assert (parts + [last])[1..] == parts[1..] + [last];
      JoinSnoc(parts[1..], last, sep);
    } else if |parts| == 1 {
      assert (parts + [last])[1..] == [last];
    }
  }
}
