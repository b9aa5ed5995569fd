/**
 * The two first-match lookups over an entry's phonetics:
 * `phonetics.find(p => p.text)?.text || ""` and
 * `phonetics.find(p => p.audio)?.audio`.
 * A JavaScript `find` with a field as its test keeps the first element whose
 * field is present and not the empty string (the only falsy strings).
 */
module Phonetics {
  import opened Wrappers
  import opened Api

  /** `Array.prototype.find`: the first element that passes `p`, if any. */
  function Find<T>(s: seq<T>, p: T -> bool): (r: Option<T>)
    ensures r.None? <==> forall i :: 0 <= i < |s| ==> !p(s[i])
    ensures r.Some? ==> p(r.value)
    ensures r.Some? ==> exists i :: 0 <= i < |s| && s[i] == r.value && forall j :: 0 <= j < i ==> !p(s[j])
  {
    if s == [] then None
    else if p(s[0]) then Some(s[0])
    else
      var r := Find(s[1..], p);
      assert r.Some? ==> exists i :: 1 <= i < |s| && s[i] == r.value && forall j :: 0 <= j < i ==> !p(s[j]) by {
        if r.Some? {
          var k :| 0 <= k < |s| - 1 && s[1..][k] == r.value && forall j :: 0 <= j < k ==> !p(s[1..][j]);
          assert forall j :: 0 <= j < k + 1 ==> !p(s[j]) by {
            forall j | 0 <= j < k + 1 ensures !p(s[j]) {
              if j > 0 { assert s[1..][j - 1] == s[j]; }
            }
          }
          assert s[k + 1] == r.value;
        }
      }
      r
  }

  /** A JavaScript string field is truthy when present and non-empty. */
  predicate Truthy(field: Option<string>) {
    field.Some? && field.value != ""
  }

  predicate HasText(p: Phonetic) {
    Truthy(p.text)
  }

  predicate HasAudio(p: Phonetic) {
    Truthy(p.audio)
  }

  /** The phonetic shown next to the word. */
  function PhoneticText(ps: seq<Phonetic>): (t: string)
    ensures t != "" <==> exists i :: 0 <= i < |ps| && HasText(ps[i])
    ensures t != "" ==> exists i :: 0 <= i < |ps| && ps[i].text == Some(t) && forall j :: 0 <= j < i ==> !HasText(ps[j])
  {
    match Find(ps, HasText)
    case Some(p) => p.text.value
    case None => ""
  }

  /** The pronunciation audio, if any phonetic has one. */
  function AudioUrl(ps: seq<Phonetic>): (u: Option<string>)
    ensures u.None? <==> forall i :: 0 <= i < |ps| ==> !HasAudio(ps[i])
    ensures u.Some? ==> u.value != ""
    ensures u.Some? ==> exists i :: 0 <= i < |ps| && ps[i].audio == u && forall j :: 0 <= j < i ==> !HasAudio(ps[j])
  {
    match Find(ps, HasAudio)
    case Some(p) => p.audio
    case None => None
  }
}
