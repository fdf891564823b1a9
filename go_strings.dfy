/**
 * The functions of Go's `strings` package that the domain scanner relies on,
 * modelled on `seq<char>`: Index, Split, Join, HasPrefix, HasSuffix,
 * TrimPrefix, TrimSuffix, TrimLeft, TrimRight and Trim.
 */
module GoStrings {
  import opened Options

  /** `sep` occurs in `s` starting at position `j`. */
  predicate OccursAt(s: string, sep: string, j: int)
  {
    0 <= j && j + |sep| <= |s| && s[j..j + |sep|] == sep
  }

  /** Go's strings.Contains. */
  predicate Contains(s: string, sep: string)
  {
    exists j :: 0 <= j <= |s| && OccursAt(s, sep, j)
  }

  lemma OccursAtTail(s: string, sep: string, j: int)
    requires |s| > 0 && 1 <= j
    ensures OccursAt(s, sep, j) <==> OccursAt(s[1..], sep, j - 1)
  {
    if j + |sep| <= |s| {
      assert s[1..][j - 1..j - 1 + |sep|] == s[j..j + |sep|];
    }
  }

  lemma OccursAtPrefix(s: string, sep: string, i: int, j: int)
    requires 0 <= i <= |s|
    ensures OccursAt(s[..i], sep, j) ==> OccursAt(s, sep, j)
  {
    if OccursAt(s[..i], sep, j) {
      assert s[..i][j..j + |sep|] == s[j..j + |sep|];
    }
  }

  /** A one-character separator occurs exactly where that character is. */
  lemma ContainsChar(s: string, c: char)
    ensures Contains(s, [c]) <==> c in s
  {
    if c in s {
      var j :| 0 <= j < |s| && s[j] == c;
      assert s[j..j + 1] == [c];
      assert OccursAt(s, [c], j);
    }
    if Contains(s, [c]) {
      var j :| 0 <= j <= |s| && OccursAt(s, [c], j);
      assert j + 1 <= |s| && s[j..j + 1] == [c];
      assert s[j] == c;
    }
  }

  /** Go's strings.Index: the leftmost position at which `sep` occurs in `s`,
      None where Go returns -1. An empty `sep` is found at position 0. */
  function Index(s: string, sep: string): (r: Option<nat>)
    ensures r.Some? ==> OccursAt(s, sep, r.value)
    ensures forall j :: 0 <= j && (r.None? || j < r.value) ==> !OccursAt(s, sep, j)
    decreases |s|
  {
    if |s| < |sep| then None
    else if s[..|sep|] == sep then Some(0)
    else
      var tail := Index(s[1..], sep);
      assert forall j :: 1 <= j ==> (OccursAt(s, sep, j) <==> OccursAt(s[1..], sep, j - 1)) by {
        forall j | 1 <= j { OccursAtTail(s, sep, j); }
      }
      assert !OccursAt(s, sep, 0);
      match tail
      case None => None
      case Some(i) => Some(i + 1)
  }

  /** Go's strings.Split for a non-empty separator: the pieces of `s` between
      the non-overlapping occurrences of `sep`, found left to right. There is
      always at least one piece, and no piece contains `sep`. */
  function Split(s: string, sep: string): (r: seq<string>)
    requires |sep| > 0
    ensures |r| >= 1
    ensures forall k :: 0 <= k < |r| ==> !Contains(r[k], sep)
    decreases |s|
  {
    match Index(s, sep)
    case None => [s]
    case Some(i) =>
      assert !Contains(s[..i], sep) by {
        forall j ensures !OccursAt(s[..i], sep, j) {
          OccursAtPrefix(s, sep, i, j);
        }
      }
      [s[..i]] + Split(s[i + |sep|..], sep)
  }

  /** Go's strings.Join: the pieces with `sep` between neighbours. */
  function Join(parts: seq<string>, sep: string): string
  {
    if |parts| == 0 then ""
    else if |parts| == 1 then parts[0]
    else parts[0] + sep + Join(parts[1..], sep)
  }

  /** Joining one more piece on the right adds the separator and the piece. */
  lemma {:induction false} JoinSnoc(parts: seq<string>, x: string, sep: string)
    requires |parts| > 0
    ensures Join(parts + [x], sep) == Join(parts, sep) + sep + x
  {
    if |parts| > 1 {
      assert (parts + [x])[1..] == parts[1..] + [x];
      JoinSnoc(parts[1..], x, sep);
    }
  }

  /** Splitting and joining again gives back the original string. */
  lemma {:induction false} JoinSplit(s: string, sep: string)
    requires |sep| > 0
    ensures Join(Split(s, sep), sep) == s
    decreases |s|
  {
    match Index(s, sep)
    case None =>
    case Some(i) =>
      var rest := s[i + |sep|..];
      var tail := Split(rest, sep);
      assert Split(s, sep) == [s[..i]] + tail;
      JoinSplit(rest, sep);
      assert ([s[..i]] + tail)[1..] == tail;
      assert Join([s[..i]] + tail, sep) == s[..i] + sep + Join(tail, sep);
      assert s[i..i + |sep|] == sep;
      assert s == s[..i] + sep + rest;
  }

  /** Joining pieces none of which holds the separator's first character and
      splitting again gives back the pieces. */
  lemma {:induction false} SplitJoin(parts: seq<string>, sep: string)
    requires |sep| > 0 && |parts| > 0
    requires forall k :: 0 <= k < |parts| ==> sep[0] !in parts[k]
    ensures Split(Join(parts, sep), sep) == parts
  {
    var s := Join(parts, sep);
    var p := parts[0];
    if |parts| == 1 {
      forall j | 0 <= j ensures !OccursAt(s, sep, j) {
      }
    } else {
      var rest := Join(parts[1..], sep);
      assert s == p + sep + rest;
      assert OccursAt(s, sep, |p|) by { assert s[|p|..|p| + |sep|] == sep; }
      forall j | 0 <= j < |p| ensures !OccursAt(s, sep, j) {
      }
      assert Index(s, sep) == Some(|p|);
      assert s[..|p|] == p;
      assert s[|p| + |sep|..] == rest;
      SplitJoin(parts[1..], sep);
    }
  }

  /** Go's strings.HasPrefix. */
  predicate HasPrefix(s: string, prefix: string)
  {
    |prefix| <= |s| && s[..|prefix|] == prefix
  }

  /** Go's strings.HasSuffix. */
  predicate HasSuffix(s: string, suffix: string)
  {
    |suffix| <= |s| && s[|s| - |suffix|..] == suffix
  }

  /** Go's strings.TrimPrefix: removes `prefix` once when `s` starts with it. */
  function TrimPrefix(s: string, prefix: string): (r: string)
    ensures HasPrefix(s, prefix) ==> prefix + r == s
    ensures !HasPrefix(s, prefix) ==> r == s
  {
    if HasPrefix(s, prefix) then s[|prefix|..] else s
  }

  /** Go's strings.TrimSuffix: removes `suffix` once when `s` ends with it. */
  function TrimSuffix(s: string, suffix: string): (r: string)
    ensures HasSuffix(s, suffix) ==> r + suffix == s
    ensures !HasSuffix(s, suffix) ==> r == s
  {
    if HasSuffix(s, suffix) then s[..|s| - |suffix|] else s
  }

  /** Go's strings.TrimLeft: drops every leading character found in `cutset`.
      The result is a suffix of `s` that does not start with such a
      character, and everything dropped was in `cutset`. */
  function TrimLeft(s: string, cutset: string): (r: string)
    ensures |r| <= |s| && r == s[|s| - |r|..]
    ensures forall k :: 0 <= k < |s| - |r| ==> s[k] in cutset
    ensures r == "" || r[0] !in cutset
  {
    if |s| > 0 && s[0] in cutset then TrimLeft(s[1..], cutset) else s
  }

  /** Go's strings.TrimRight: drops every trailing character found in
      `cutset`. */
  function TrimRight(s: string, cutset: string): (r: string)
    ensures |r| <= |s| && r == s[..|r|]
    ensures forall k :: |r| <= k < |s| ==> s[k] in cutset
    ensures r == "" || r[|r| - 1] !in cutset
  {
    if |s| > 0 && s[|s| - 1] in cutset then TrimRight(s[..|s| - 1], cutset) else s
  }

  /** Go's strings.Trim: right then left, as Go does for a one-byte cutset
      (the order does not change the result). The result is a slice of `s`
      whose ends are not in `cutset`. */
  function Trim(s: string, cutset: string): (r: string)
    ensures r == "" || (r[0] !in cutset && r[|r| - 1] !in cutset)
    ensures Contains(s, r)
  {
    var right := TrimRight(s, cutset);
    var r := TrimLeft(right, cutset);
    assert OccursAt(s, r, |right| - |r|) by {
      assert s[|right| - |r|..|right|] == right[|right| - |r|..];
    }
    r
  }

  /** Trim removes exactly a run of cutset characters on each side. */
  lemma {:induction false} TrimAround(pre: string, core: string, post: string, cutset: string)
    requires forall k :: 0 <= k < |pre| ==> pre[k] in cutset
    requires forall k :: 0 <= k < |post| ==> post[k] in cutset
    requires core == "" || (core[0] !in cutset && core[|core| - 1] !in cutset)
    ensures Trim(pre + core + post, cutset) == core
  {
    var s := pre + core + post;
    if core == "" {
      assert s == [] + (pre + post);
      TrimRightStops([], pre + post, cutset);
    } else {
      assert s == (pre + core) + post;
      TrimRightStops(pre + core, post, cutset);
      TrimLeftStops(pre, core, cutset);
    }
  }

  lemma {:induction false} TrimRightStops(s: string, post: string, cutset: string)
    requires forall k :: 0 <= k < |post| ==> post[k] in cutset
    requires s == "" || s[|s| - 1] !in cutset
    ensures TrimRight(s + post, cutset) == s
    decreases |post|
  {
    if |post| > 0 {
      var shorter := post[..|post| - 1];
      assert (s + post)[..|s + post| - 1] == s + shorter;
      TrimRightStops(s, shorter, cutset);
    } else {
      assert s + post == s;
    }
  }

  lemma {:induction false} TrimLeftStops(pre: string, s: string, cutset: string)
    requires forall k :: 0 <= k < |pre| ==> pre[k] in cutset
    requires s != "" && s[0] !in cutset
    ensures TrimLeft(pre + s, cutset) == s
    decreases |pre|
  {
    if |pre| > 0 {
      assert (pre + s)[1..] == pre[1..] + s;
      TrimLeftStops(pre[1..], s, cutset);
    } else {
      assert pre + s == s;
    }
  }
}
