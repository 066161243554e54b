/**
 * Device keys. Both the bridge and the browser client turn a raw device path
 * into the token used in bus subjects and as the registry index with
 * `device.replace(/[^a-zA-Z0-9]/g, '_')`. The two copies are the same text,
 * so one function stands for both.
 */
module DeviceKey {

  import Js

  predicate IsAlnum(c: char) {
    ('a' <= c <= 'z') || ('A' <= c <= 'Z') || ('0' <= c <= '9')
  }

  /** A character a key can hold. */
  predicate IsKeyChar(c: char) {
    IsAlnum(c) || c == '_'
  }

  predicate IsKey(s: string) {
    forall i :: 0 <= i < |s| ==> IsKeyChar(s[i])
  }

  /**
   * Strings in JavaScript are sequences of UTF-16 code units, and the regular
   * expression (without the `u` flag) replaces each code unit on its own: a
   * character outside the Basic Multilingual Plane is two units.
   */
  function Utf16Length(c: char): nat {
    if c as int >= 0x1_0000 then 2 else 1
  }

  function Utf16Size(s: string): nat {
    if s == [] then 0 else Utf16Length(s[0]) + Utf16Size(s[1..])
  }

  /** What the replacement writes for one character. */
  function SanitizeChar(c: char): string {
    if IsAlnum(c) then [c] else Js.Repeat('_', Utf16Length(c))
  }

  /** `sanitizeDeviceName`: every code unit outside `[A-Za-z0-9]` becomes `_`. */
  function Sanitize(device: string): (key: string)
    ensures IsKey(key)
    ensures |key| == Utf16Size(device)
    ensures key == [] <==> device == []
  {
    if device == [] then []
    else
      var head := SanitizeChar(device[0]);
      var key := head + Sanitize(device[1..]);
      assert forall i :: 0 <= i < |head| ==> key[i] == head[i];
      assert forall i :: |head| <= i < |key| ==> key[i] == Sanitize(device[1..])[i - |head|];
      key
  }

  /** A key is left as it is: sanitizing is idempotent. */
  lemma {:induction false} SanitizeKey(key: string)
    requires IsKey(key)
    ensures Sanitize(key) == key
  {
    if key != [] {
      assert key[0] == '_' ==> SanitizeChar(key[0]) == ['_'];
      SanitizeKey(key[1..]);
    }
  }

  lemma SanitizeIdempotent(device: string)
    ensures Sanitize(Sanitize(device)) == Sanitize(device)
  {
    SanitizeKey(Sanitize(device));
  }

  /**
   * For a path made of Basic Multilingual Plane characters the key has the
   * same length and differs only where the path held a non-alphanumeric.
   */
  lemma {:induction false} SanitizeBmp(device: string)
    requires forall i :: 0 <= i < |device| ==> device[i] as int < 0x1_0000
    ensures |Sanitize(device)| == |device|
    ensures forall i :: 0 <= i < |device| ==>
      Sanitize(device)[i] == if IsAlnum(device[i]) then device[i] else '_'
  {
    if device != [] {
      SanitizeBmp(device[1..]);
      var key := Sanitize(device);
      assert key == SanitizeChar(device[0]) + Sanitize(device[1..]);
      forall i | 1 <= i < |device|
        ensures key[i] == if IsAlnum(device[i]) then device[i] else '_'
      {
        assert device[i] == device[1..][i - 1];
      }
    }
  }
}
