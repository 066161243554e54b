/**
 * The bus contract between the browser client and the bridge: the subjects
 * `serial.<key>.control`, `serial.<key>.in` and `serial.<key>.out`, the
 * control message, and how the bridge recovers a key from an input subject.
 */
module Topics {

  import opened Wrappers
  import opened Js

  const Prefix: string := "serial."
  const InSuffix: string := ".in"

  function ControlSubject(key: string): string { Prefix + key + ".control" }

  function InSubject(key: string): string { Prefix + key + InSuffix }

  function OutSubject(key: string): string { Prefix + key + ".out" }

  /**
   * A decoded control payload. A numeric field is None when it is missing or
   * null (JSON writes NaN as null); `device` is None when it is missing or not
   * a string.
   */
  datatype ControlMessage = ControlMessage(
    action: Option<string>,
    device: Option<string>,
    baudRate: Option<int>,
    dataBits: Option<int>,
    stopBits: Option<int>,
    parity: Option<string>)

  /** What one publish puts on the bus. */
  datatype Message =
    | Control(subject: string, command: ControlMessage)
    | Data(subject: string, payload: seq<Byte>)

  /*
   * The bridge reads the key of an input subject with
   * `subject.match(/serial\.(.+)\.in/)` and group 1. The expression is not
   * anchored: the match starts at the leftmost position where one exists, and
   * the greedy `.+` then reaches the last `.in` it can, never crossing a line
   * terminator.
   */

  /** The first line terminator at or after `from`, or the end of `s`. */
  function LineEnd(s: string, from: nat): (e: nat)
    requires from <= |s|
    ensures from <= e <= |s|
    ensures forall k :: from <= k < e ==> !IsLineTerminator(s[k])
    ensures e < |s| ==> IsLineTerminator(s[e])
    decreases |s| - from
  {
    if from == |s| || IsLineTerminator(s[from]) then from else LineEnd(s, from + 1)
  }

  predicate SuffixAt(s: string, j: nat) {
    j + 3 <= |s| && s[j..j + 3] == InSuffix
  }

  /** The last position in `[lo, hi - 3]` where `.in` starts. */
  function LastSuffix(s: string, lo: nat, hi: nat): (r: Option<nat>)
    requires hi <= |s|
    ensures r.Some? ==> lo <= r.value && r.value + 3 <= hi && SuffixAt(s, r.value)
    ensures r.Some? ==> forall j :: r.value < j && j + 3 <= hi ==> !SuffixAt(s, j)
    ensures r.None? ==> forall j :: lo <= j && j + 3 <= hi ==> !SuffixAt(s, j)
    decreases hi
  {
    if hi < lo + 3 then None
    else if SuffixAt(s, hi - 3) then Some(hi - 3)
    else LastSuffix(s, lo, hi - 1)
  }

  /** The match, if any, that starts at position `i`: its group 1. */
  function MatchAt(s: string, i: nat): Option<string>
    requires i <= |s|
  {
    if i + |Prefix| <= |s| && s[i..i + |Prefix|] == Prefix then
      match LastSuffix(s, i + |Prefix| + 1, LineEnd(s, i + |Prefix|))
      case Some(j) => Some(s[i + |Prefix|..j])
      case None => None
    else None
  }

  function SearchFrom(s: string, i: nat): Option<string>
    requires i <= |s|
    decreases |s| - i
  {
    var m := MatchAt(s, i);
    if m.Some? then m
    else if i == |s| then None
    else SearchFrom(s, i + 1)
  }

  /**
   * Group 1 of `subject.match(/serial\.(.+)\.in/)`, None when there is no
   * match. A key it extracts is non-empty and really sits between `serial.`
   * and `.in`.
   */
  function ParseInputSubject(subject: string): (key: Option<string>)
    ensures key.Some? ==> Matchable(key.value) && exists p :: Occurs(subject, p, key.value)
  {
    var key := SearchFrom(subject, 0);
    if key.Some? then SearchFromSound(subject, 0); key else key
  }

  /** A string `.+` can match. */
  predicate Matchable(k: string) {
    k != [] && forall i :: 0 <= i < |k| ==> !IsLineTerminator(k[i])
  }

  /** `serial.` + `k` + `.in` occurs in `s` at position `i`. */
  predicate Occurs(s: string, i: nat, k: string) {
    i + |k| + 10 <= |s| && s[i..i + |k| + 10] == Prefix + k + InSuffix
  }

  lemma {:induction false} MatchAtSound(s: string, i: nat)
    requires i <= |s| && MatchAt(s, i).Some?
    ensures Matchable(MatchAt(s, i).value) && Occurs(s, i, MatchAt(s, i).value)
  {
    var e := LineEnd(s, i + 7);
    var j := LastSuffix(s, i + 8, e).value;
    var k := s[i + 7..j];
    assert s[i..j + 3] == s[i..i + 7] + k + s[j..j + 3];
  }

  lemma {:induction false} SearchFromSound(s: string, i: nat)
    requires i <= |s| && SearchFrom(s, i).Some?
    ensures Matchable(SearchFrom(s, i).value)
    ensures exists p :: Occurs(s, p, SearchFrom(s, i).value)
    decreases |s| - i
  {
    if MatchAt(s, i).Some? {
      MatchAtSound(s, i);
    } else {
      SearchFromSound(s, i + 1);
    }
  }

  lemma SplitOccurrence(s: string, i: nat, a: string, b: string, c: string)
    requires i + |a| + |b| + |c| <= |s| && s[i..i + |a| + |b| + |c|] == a + b + c
    ensures s[i..i + |a|] == a
    ensures s[i + |a|..i + |a| + |b|] == b
    ensures s[i + |a| + |b|..i + |a| + |b| + |c|] == c
  {
    var w := s[i..i + |a| + |b| + |c|];
    forall t | 0 <= t < |a|
      ensures s[i + t] == a[t]
    {
      assert w[t] == a[t];
    }
    forall t | 0 <= t < |b|
      ensures s[i + |a| + t] == b[t]
    {
      assert w[|a| + t] == b[t];
    }
    forall t | 0 <= t < |c|
      ensures s[i + |a| + |b| + t] == c[t]
    {
      assert w[|a| + |b| + t] == c[t];
    }
  }

  lemma {:induction false} MatchAtComplete(s: string, i: nat, k: string)
    requires Occurs(s, i, k) && Matchable(k)
    ensures MatchAt(s, i).Some?
  {
    var j := i + 7 + |k|;
    SplitOccurrence(s, i, Prefix, k, InSuffix);
    assert s[j..j + 3] == InSuffix;
    assert SuffixAt(s, j);
  }

  lemma {:induction false} SearchFromComplete(s: string, from: nat, i: nat, k: string)
    requires from <= i && Occurs(s, i, k) && Matchable(k)
    ensures SearchFrom(s, from).Some?
    decreases i - from
  {
    if MatchAt(s, from).None? {
      if from == i {
        MatchAtComplete(s, i, k);
      } else {
        SearchFromComplete(s, from + 1, i, k);
      }
    }
  }

  /** Every subject holding `serial.<k>.in` for a matchable `k` yields some key. */
  lemma ParseInputSubjectComplete(subject: string, i: nat, k: string)
    requires Occurs(subject, i, k) && Matchable(k)
    ensures ParseInputSubject(subject).Some?
  {
    SearchFromComplete(subject, 0, i, k);
  }

  /** The subject `serial.<k>.in` yields exactly `k`. */
  lemma InSubjectParses(k: string)
    requires Matchable(k)
    ensures ParseInputSubject(InSubject(k)) == Some(k)
  {
    var s := InSubject(k);
    assert s[..7] == Prefix;
    assert s[7..|s| - 3] == k;
    assert s[|s| - 3..] == InSuffix;
    assert SuffixAt(s, |s| - 3);
  }
}
