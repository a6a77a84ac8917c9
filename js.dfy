/**
 * The JavaScript values the request handlers work with: string fields of a
 * parsed JSON request body, the string primitives they call (`includes`,
 * `startsWith`, `split(...).pop()`), and JSON response values.
 */
module Js {
  import opened Wrappers

  /** A string field of a request body: `undefined` (None) or a string. */
  type Field = Option<string>

  /** JavaScript falsiness of a string field: `undefined` or the empty string. */
  predicate Missing(f: Field) {
    f.None? || f.value == ""
  }

  /**
   * The string a present field holds, and "" for an absent one. The rules
   * that read a field's text are only consulted once the field is known to
   * be present, so the default never decides anything.
   */
  function Text(f: Field): string {
    if f.Some? then f.value else ""
  }

  /** `sub` occurs in `s` starting at index `i`. */
  predicate OccursAt(s: string, sub: string, i: int) {
    0 <= i && i + |sub| <= |s| && s[i..i + |sub|] == sub
  }

  /** `s.includes(sub)`: `sub` occurs somewhere in `s`, so it is no longer than `s`. */
  predicate Includes(s: string, sub: string)
    ensures Includes(s, sub) ==> |sub| <= |s|
  {
    exists i | 0 <= i <= |s| - |sub| :: OccursAt(s, sub, i)
  }

  /** `s.startsWith(prefix)`: `prefix` occurs at index 0, so `s.includes(prefix)` holds too. */
  predicate StartsWith(s: string, prefix: string)
    ensures StartsWith(s, prefix) <==> OccursAt(s, prefix, 0)
    ensures StartsWith(s, prefix) ==> Includes(s, prefix)
  {
    var r := |prefix| <= |s| && s[..|prefix|] == prefix;
    assert r ==> OccursAt(s, prefix, 0);
    r
  }

  /** For a one-character argument, `includes` is membership of that character. */
  lemma IncludesChar(s: string, c: char)
    ensures Includes(s, [c]) <==> c in s
  {
    if c in s {
      var i :| 0 <= i < |s| && s[i] == c;
      assert s[i..i + 1] == [c];
      assert OccursAt(s, [c], i);
    }
    if Includes(s, [c]) {
      var i :| 0 <= i <= |s| - 1 && OccursAt(s, [c], i);
      assert s[i] == s[i..i + 1][0];
    }
  }

  /** An occurrence in a suffix of `s` is an occurrence in `s`, shifted by where the suffix starts. */
  lemma OccursInSuffix(s: string, k: nat, sub: string, q: nat)
    requires k <= |s|
    ensures OccursAt(s[k..], sub, q) <==> OccursAt(s, sub, k + q)
  {
    if q + |sub| <= |s| - k {
      assert s[k..][q..q + |sub|] == s[k + q..k + q + |sub|];
    }
  }

  /**
   * `s.split(sep).pop()` for a non-empty separator. Splitting scans `s` from
   * the left; where the separator starts it cuts and resumes after it, and
   * elsewhere it moves on by one character. The last piece is what follows
   * the last cut, or all of `s` when no cut was made. The result is a suffix
   * of `s`.
   */
  function SplitPop(s: string, sep: string): (r: string)
    requires sep != []
    ensures |r| <= |s|
    decreases |s|
  {
    if s == [] then s
    else if StartsWith(s, sep) then SplitPop(s[|sep|..], sep)
    else
      var tail := SplitPop(s[1..], sep);
      if |tail| == |s| - 1 then s else tail
  }

  /** The last piece of a split is a suffix of the string. */
  lemma {:induction false} SplitPopIsSuffix(s: string, sep: string)
    requires sep != []
    ensures var r := SplitPop(s, sep); r == s[|s| - |r|..]
    decreases |s|
  {
    var r := SplitPop(s, sep);
    if s == [] {
    } else if StartsWith(s, sep) {
      SplitPopIsSuffix(s[|sep|..], sep);
      assert s[|sep|..][|s| - |sep| - |r|..] == s[|s| - |r|..];
    } else if |r| < |s| {
      SplitPopIsSuffix(s[1..], sep);
      assert s[1..][|s| - 1 - |r|..] == s[|s| - |r|..];
    }
  }

  /** The last piece of a split holds no separator. */
  lemma {:induction false} SplitPopHasNoSeparator(s: string, sep: string)
    requires sep != []
    ensures !Includes(SplitPop(s, sep), sep)
    decreases |s|
  {
    var r := SplitPop(s, sep);
    if s == [] {
    } else if StartsWith(s, sep) {
      SplitPopHasNoSeparator(s[|sep|..], sep);
    } else {
      var tail := SplitPop(s[1..], sep);
      SplitPopHasNoSeparator(s[1..], sep);
      if |tail| == |s| - 1 {
        NoCutNoSeparator(s, sep);
      }
    }
  }

  /** When splitting makes no cut, the string holds no separator. */
  lemma {:induction false} NoCutNoSeparator(s: string, sep: string)
    requires sep != []
    requires |SplitPop(s, sep)| == |s|
    ensures !Includes(s, sep)
    decreases |s|
  {
    if s != [] {
      assert !StartsWith(s, sep);
      assert |SplitPop(s[1..], sep)| == |s| - 1;
      NoCutNoSeparator(s[1..], sep);
      forall i | 0 <= i <= |s| - |sep|
        ensures !OccursAt(s, sep, i)
      {
        if i == 0 {
          assert s[..|sep|] == s[0..|sep|];
        } else {
          OccursInSuffix(s, 1, sep, i - 1);
        }
      }
    }
  }

  /** When splitting makes a cut, the last piece is preceded by an occurrence of the separator. */
  lemma {:induction false} CutFollowsSeparator(s: string, sep: string)
    requires sep != []
    requires |SplitPop(s, sep)| < |s|
    ensures |SplitPop(s, sep)| + |sep| <= |s|
    ensures OccursAt(s, sep, |s| - |SplitPop(s, sep)| - |sep|)
    decreases |s|, 1
  {
    if StartsWith(s, sep) {
      CutAtStart(s, sep);
    } else {
      CutLater(s, sep);
    }
  }

  /** A cut at a separator that starts the string: the last piece follows it, or a later separator. */
  lemma {:induction false} CutAtStart(s: string, sep: string)
    requires sep != []
    requires |SplitPop(s, sep)| < |s|
    requires StartsWith(s, sep)
    ensures |SplitPop(s, sep)| + |sep| <= |s|
    ensures OccursAt(s, sep, |s| - |SplitPop(s, sep)| - |sep|)
    decreases |s|, 0
  {
    var r := SplitPop(s, sep);
    var rest := s[|sep|..];
    assert r == SplitPop(rest, sep);
    if |r| < |rest| {
      CutFollowsSeparator(rest, sep);
      var q := |rest| - |r| - |sep|;
      assert OccursAt(rest, sep, q);
      OccursInSuffix(s, |sep|, sep, q);
      assert |s| - |r| - |sep| == |sep| + q;
    } else {
      assert |s| - |r| - |sep| == 0;
      assert s[0..|sep|] == s[..|sep|];
    }
  }

  /** A cut in a string that does not start with the separator lies in the rest after its first character. */
  lemma {:induction false} CutLater(s: string, sep: string)
    requires sep != []
    requires |SplitPop(s, sep)| < |s|
    requires !StartsWith(s, sep)
    ensures |SplitPop(s, sep)| + |sep| <= |s|
    ensures OccursAt(s, sep, |s| - |SplitPop(s, sep)| - |sep|)
    decreases |s|, 0
  {
    var r := SplitPop(s, sep);
    var tail := SplitPop(s[1..], sep);
    assert r == tail && |tail| < |s| - 1;
    CutFollowsSeparator(s[1..], sep);
    var q := |s| - 1 - |r| - |sep|;
    assert OccursAt(s[1..], sep, q);
    OccursInSuffix(s, 1, sep, q);
    assert |s| - |r| - |sep| == 1 + q;
  }

  /** An occurrence at a known index is a witness for `includes`. */
  lemma OccurrenceIsIncluded(s: string, sub: string, i: int)
    requires OccursAt(s, sub, i)
    ensures Includes(s, sub)
  {
  }

  /** When splitting makes no cut, the last piece is the whole string, which holds no separator. */
  lemma NoCutKeepsWhole(s: string, sep: string)
    requires sep != []
    requires |SplitPop(s, sep)| == |s|
    ensures SplitPop(s, sep) == s && !Includes(s, sep)
  {
    NoCutNoSeparator(s, sep);
    SplitPopIsSuffix(s, sep);
    assert SplitPop(s, sep) == s[0..];
  }

  /**
   * When the separator occurs, the last piece is preceded by an occurrence of
   * it; when it does not, the last piece is the whole string.
   */
  lemma SplitPopFollowsSeparator(s: string, sep: string)
    requires sep != []
    ensures var r := SplitPop(s, sep);
      && (!Includes(s, sep) ==> r == s)
      && (Includes(s, sep) ==> |r| + |sep| <= |s| && OccursAt(s, sep, |s| - |r| - |sep|))
  {
    var r := SplitPop(s, sep);
    if |r| < |s| {
      CutFollowsSeparator(s, sep);
      OccurrenceIsIncluded(s, sep, |s| - |r| - |sep|);
    } else {
      NoCutKeepsWhole(s, sep);
    }
  }

  /** The separator in front of the payload of a base64 data URL. */
  const Base64Marker: string := ";base64,"

  /** `dataUrl.split(";base64,").pop()`: the base64 text handed on to the image upload. */
  function Base64Payload(dataUrl: string): (r: string)
    ensures |r| <= |dataUrl| && r == dataUrl[|dataUrl| - |r|..]
    ensures !Includes(r, Base64Marker)
  {
    SplitPopIsSuffix(dataUrl, Base64Marker);
    SplitPopHasNoSeparator(dataUrl, Base64Marker);
    SplitPop(dataUrl, Base64Marker)
  }

  /** An occurrence of the marker never overlaps another: its first character `;` does not recur in it. */
  lemma MarkerDoesNotOverlap(s: string, p: nat, j: int)
    requires OccursAt(s, Base64Marker, p)
    requires p < j < p + |Base64Marker|
    ensures !OccursAt(s, Base64Marker, j)
  {
    assert Base64Marker == [';', 'b', 'a', 's', 'e', '6', '4', ','];
    assert s[j] == Base64Marker[j - p] by {
      assert s[p..p + |Base64Marker|][j - p] == s[j];
    }
  }

  /**
   * The payload is exactly what follows the LAST occurrence of the marker:
   * the URL is a prefix, the marker and the payload, and no occurrence of
   * the marker starts after the one in front of the payload. Without a
   * marker the payload is the whole URL.
   */
  lemma Base64PayloadFollowsLastMarker(dataUrl: string)
    ensures var r := Base64Payload(dataUrl);
      && r == dataUrl[|dataUrl| - |r|..]
      && (!Includes(dataUrl, Base64Marker) ==> r == dataUrl)
      && (Includes(dataUrl, Base64Marker) ==>
            && |r| + |Base64Marker| <= |dataUrl|
            && dataUrl == dataUrl[..|dataUrl| - |r| - |Base64Marker|] + Base64Marker + r
            && forall j :: |dataUrl| - |r| - |Base64Marker| < j ==> !OccursAt(dataUrl, Base64Marker, j))
  {
    var s, r, n := dataUrl, Base64Payload(dataUrl), |Base64Marker|;
    SplitPopIsSuffix(s, Base64Marker);
    SplitPopHasNoSeparator(s, Base64Marker);
    SplitPopFollowsSeparator(s, Base64Marker);
    if Includes(s, Base64Marker) {
      var p := |s| - |r| - n;
      assert s == s[..p] + s[p..p + n] + s[p + n..];
      forall j | p < j
        ensures !OccursAt(s, Base64Marker, j)
      {
        if j < p + n {
          MarkerDoesNotOverlap(s, p, j);
        } else {
          OccursInSuffix(s, p + n, Base64Marker, j - (p + n));
        }
      }
    }
  }

  /** A JSON value. Objects are maps: JSON gives their keys no order. */
  datatype Json =
    | JNull
    | JStr(str: string)
    | JId(id: nat)            // a document id, serialised as its hex string
    | JObj(fields: map<string, Json>)
    | JArr(items: seq<Json>)

  /** `key` is a property of the JSON object `j`. */
  predicate HasKey(j: Json, key: string) {
    j.JObj? && key in j.fields
  }
}
