/** The string and character operations the ranking relies on: Go's
    `strings.Join`, `strings.Contains`, `strings.ToLower` and
    `unicode.IsUpper`, restricted to ASCII case mapping. */
module Text {

  datatype Option<T> = None | Some(value: T)

  /** `unicode.IsUpper`, restricted to the ASCII capital letters. */
  predicate IsUpper(c: char) {
    'A' <= c <= 'Z'
  }

  /** `unicode.ToLower` on one character, restricted to ASCII. */
  function LowerChar(c: char): char {
    if IsUpper(c) then (c as int + 32) as char else c
  }

  /** True when some character of `s` is upper case (the loop in the
      `containsUpper` closure, which returns at the first hit). */
  function ContainsUpper(s: string): (r: bool)
    ensures r <==> exists i :: 0 <= i < |s| && IsUpper(s[i])
  {
    if s == [] then false
    else if IsUpper(s[0]) then true
    else
      var rest := ContainsUpper(s[1..]);
      assert forall i :: 1 <= i < |s| ==> s[i] == s[1..][i - 1];
      rest
  }

  /** `strings.ToLower`: the lowered string has the same length, turns
      each capital letter into its own small letter, keeps every other
      character, and has no capital letter left. */
  function Lower(s: string): (r: string)
    ensures |r| == |s|
    ensures forall i :: 0 <= i < |s| && IsUpper(s[i]) ==> r[i] as int == s[i] as int + 32
    ensures forall i :: 0 <= i < |s| && !IsUpper(s[i]) ==> r[i] == s[i]
    ensures !ContainsUpper(r)
  {
    seq(|s|, i requires 0 <= i < |s| => LowerChar(s[i]))
  }

  /** `strings.Join`: the parts with `sep` between consecutive ones. The
      result is as long as the parts plus one separator per gap; it starts
      with the first part, the separator follows that part when more parts
      come, and it ends with the last part. `JoinContainsParts` adds that
      every part occurs in it. */
  function Join(parts: seq<string>, sep: string): (r: string)
    ensures |parts| == 0 ==> r == ""
    ensures |parts| > 0 ==> |r| == TotalLength(parts) + (|parts| - 1) * |sep|
    ensures |parts| > 0 ==> parts[0] <= r
    ensures |parts| > 1 ==> OccursAt(r, sep, |parts[0]|)
    ensures |parts| > 0 ==> OccursAt(r, parts[|parts| - 1], |r| - |parts[|parts| - 1]|)
  {
    if |parts| == 0 then ""
    else if |parts| == 1 then
      assert OccursAt(parts[0], parts[0], 0);
      parts[0]
    else
      var rest := Join(parts[1..], sep);
      JoinStep(parts, sep, rest);
      parts[0] + sep + rest
  }

  /** The summed lengths of the parts. */
  function TotalLength(parts: seq<string>): nat {
    if |parts| == 0 then 0 else |parts[0]| + TotalLength(parts[1..])
  }

  /** The step of `Join`: the layout of the later parts' join carries over
      to the first part, the separator and that join. */
  lemma JoinStep(parts: seq<string>, sep: string, rest: string)
    requires |parts| > 1
    requires var tail := parts[1..];
      && |rest| == TotalLength(tail) + (|tail| - 1) * |sep|
      && OccursAt(rest, tail[|tail| - 1], |rest| - |tail[|tail| - 1]|)
    ensures var r := parts[0] + sep + rest;
      && |r| == TotalLength(parts) + (|parts| - 1) * |sep|
      && parts[0] <= r
      && OccursAt(r, sep, |parts[0]|)
      && OccursAt(r, parts[|parts| - 1], |r| - |parts[|parts| - 1]|)
  {
    var head := parts[0] + sep;
    var r := head + rest;
    var last := parts[|parts| - 1];
    assert last == parts[1..][|parts[1..]| - 1];
    assert (|parts| - 2) * |sep| + |sep| == (|parts| - 1) * |sep|;
    assert r[..|parts[0]|] == parts[0];
    assert r[|parts[0]|..|parts[0]| + |sep|] == sep;
    OccursAfterPrefix(head, rest, last, |rest| - |last|);
  }

  /** Every part occurs in the joined string. */
  lemma {:induction false} JoinContainsParts(parts: seq<string>, sep: string)
    ensures forall k :: 0 <= k < |parts| ==> Contains(Join(parts, sep), parts[k])
  {
    if |parts| == 1 {
      assert OccursAt(Join(parts, sep), parts[0], 0);
    } else if |parts| > 1 {
      var head := parts[0] + sep;
      var rest := Join(parts[1..], sep);
      var r := head + rest;
      assert Join(parts, sep) == r;
      JoinContainsParts(parts[1..], sep);
      assert OccursAt(r, parts[0], 0);
      forall k | 1 <= k < |parts| ensures Contains(r, parts[k]) {
        assert parts[k] == parts[1..][k - 1];
        var i :| OccursAt(rest, parts[k], i);
        OccursAfterPrefix(head, rest, parts[k], i);
      }
    }
  }

  /** An occurrence in `rest` is an occurrence in `head + rest`, shifted. */
  lemma OccursAfterPrefix(head: string, rest: string, sub: string, i: int)
    requires OccursAt(rest, sub, i)
    ensures OccursAt(head + rest, sub, |head| + i)
  {
    assert (head + rest)[|head| + i..|head| + i + |sub|] == rest[i..i + |sub|];
  }

  /** `sub` occurs in `s` starting at index `i`. */
  predicate OccursAt(s: string, sub: string, i: int) {
    0 <= i && i + |sub| <= |s| && s[i..i + |sub|] == sub
  }

  /** `strings.Contains`: `sub` occurs somewhere in `s`; the empty string
      occurs in every string. */
  function Contains(s: string, sub: string): (r: bool)
    ensures r <==> exists i :: OccursAt(s, sub, i)
    decreases |s|
  {
    if |sub| > |s| then
      assert forall i :: !OccursAt(s, sub, i);
      false
    else if s[..|sub|] == sub then
      assert OccursAt(s, sub, 0);
      true
    else
      var rest := Contains(s[1..], sub);
      assert !OccursAt(s, sub, 0);
      assert rest ==> exists i :: OccursAt(s, sub, i) by {
        if rest {
          var i :| OccursAt(s[1..], sub, i);
          assert OccursAt(s, sub, i + 1);
        }
      }
      assert (exists i :: OccursAt(s, sub, i)) ==> rest by {
        if exists i :: OccursAt(s, sub, i) {
          var i :| OccursAt(s, sub, i);
          assert i >= 1;
          assert OccursAt(s[1..], sub, i - 1);
        }
      }
      rest
  }

  /** Lowering a string without capital letters leaves it as it is. */
  lemma LowerNoUpper(s: string)
    requires !ContainsUpper(s)
    ensures Lower(s) == s
  {
  }

  /** Every character of a contained string occurs in the containing one. */
  lemma ContainsNeedsEveryChar(s: string, sub: string, c: char)
    requires Contains(s, sub)
    requires c in sub
    ensures c in s
  {
    var i :| OccursAt(s, sub, i);
    var j :| 0 <= j < |sub| && sub[j] == c;
    assert s[i..i + |sub|][j] == s[i + j];
  }

  /** A string without capital letters that lacks some character of `sub`
      does not contain `sub`, even once lowered. */
  lemma MissingCharRulesOut(s: string, sub: string, c: char)
    requires !ContainsUpper(s)
    requires c in sub && c !in s
    ensures !Contains(Lower(s), sub)
  {
    LowerNoUpper(s);
    if Contains(s, sub) {
      ContainsNeedsEveryChar(s, sub, c);
    }
  }

  /** Every string contains the empty string. */
  lemma ContainsEmpty(s: string)
    ensures Contains(s, "")
  {
    assert OccursAt(s, "", 0);
  }

  /** A concatenation has a capital letter exactly when one of its halves has. */
  lemma {:induction false} ContainsUpperConcat(x: string, y: string)
    ensures ContainsUpper(x + y) <==> ContainsUpper(x) || ContainsUpper(y)
  {
    var xy := x + y;
    if ContainsUpper(x) {
      var i :| 0 <= i < |x| && IsUpper(x[i]);
      assert xy[i] == x[i];
    }
    if ContainsUpper(y) {
      var i :| 0 <= i < |y| && IsUpper(y[i]);
      assert xy[|x| + i] == y[i];
    }
    if ContainsUpper(xy) {
      var i :| 0 <= i < |xy| && IsUpper(xy[i]);
      if i < |x| {
        assert x[i] == xy[i];
      } else {
        assert y[i - |x|] == xy[i];
      }
    }
  }

  /** Joining with a separator that has no capital letter: the result has
      a capital letter exactly when one of the parts has. */
  lemma {:induction false} ContainsUpperJoin(parts: seq<string>, sep: string)
    requires !ContainsUpper(sep)
    ensures ContainsUpper(Join(parts, sep)) <==>
            exists k :: 0 <= k < |parts| && ContainsUpper(parts[k])
  {
    if |parts| >= 2 {
      ContainsUpperJoin(parts[1..], sep);
      ContainsUpperConcat(parts[0], sep);
      ContainsUpperConcat(parts[0] + sep, Join(parts[1..], sep));
      assert forall k :: 1 <= k < |parts| ==> parts[k] == parts[1..][k - 1];
      if exists k :: 0 <= k < |parts| && ContainsUpper(parts[k]) {
        var k :| 0 <= k < |parts| && ContainsUpper(parts[k]);
        if k > 0 {
          assert ContainsUpper(parts[1..][k - 1]);
        }
      }
    }
  }
}
