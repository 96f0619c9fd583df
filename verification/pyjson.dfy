/**
 * JSON values as Python sees them after `json.loads`, together with the few
 * Python operations the token code applies to them: truthiness, `x in v`,
 * `v[k]`, `dict.get` and the substring test on strings.
 *
 * Python's `None` and JSON `null` are the same value, so `JNull` also stands
 * for "missing" wherever the source calls `dict.get` without a default.
 */
module PyJson {
  import opened Wrappers

  datatype Json =
    | JNull
    | JBool(b: bool)
    | JNum(n: int)
    | JStr(s: string)
    | JArr(items: seq<Json>)
    | JObj(fields: map<string, Json>)

  /** Python truthiness: None, False, 0 and empty containers are false. */
  predicate Truthy(j: Json)
  {
    match j
    case JNull => false
    case JBool(b) => b
    case JNum(n) => n != 0
    case JStr(s) => |s| > 0
    case JArr(xs) => |xs| > 0
    case JObj(m) => |m| > 0
  }

  /** A value usable as a dict key: lists and dicts raise TypeError. */
  predicate Hashable(j: Json)
  {
    !j.JArr? && !j.JObj?
  }

  /** `d.get(k)` on a dict: the value, or None when the key is absent. */
  function Get(m: map<string, Json>, k: string): (r: Json)
    ensures k !in m ==> r == JNull
    ensures k in m ==> r == m[k]
  {
    if k in m then m[k] else JNull
  }

  /** `sub in s` for Python strings: `sub` occurs in `s` at some offset. */
  predicate Contains(sub: string, s: string)
    decreases |s|
  {
    sub <= s || (|s| > 0 && Contains(sub, s[1..]))
  }

  /** An occurrence further right is an occurrence of the whole string. */
  lemma {:induction false} ContainsShift(sub: string, s: string, k: nat)
    requires k <= |s|
    requires Contains(sub, s[k..])
    ensures Contains(sub, s)
    decreases k
  {
    if k > 0 {
      assert s[1..][k - 1..] == s[k..];
      ContainsShift(sub, s[1..], k - 1);
    }
  }

  /** A string contains every string one of its substrings contains. */
  lemma {:induction false} ContainsTransitive(a: string, b: string, s: string)
    requires Contains(a, b) && Contains(b, s)
    ensures Contains(a, s)
    decreases |s| + |b|
  {
    if b <= s {
      if a <= b {
        assert a <= s;
      } else {
        // a occurs in b[1..], and b[1..] is a prefix of s[1..]
        assert |b| > 0;
        assert b[1..] <= s[1..];
        ContainsInPrefix(a, b[1..], s[1..]);
      }
    } else {
      ContainsTransitive(a, b, s[1..]);
    }
  }

  /** An occurrence inside a prefix of `s` is an occurrence in `s`. */
  lemma {:induction false} ContainsInPrefix(a: string, p: string, s: string)
    requires Contains(a, p) && p <= s
    ensures Contains(a, s)
    decreases |p|
  {
    if a <= p {
      assert a <= s;
    } else {
      assert |p| > 0;
      assert p[1..] <= s[1..];
      ContainsInPrefix(a, p[1..], s[1..]);
    }
  }

  /**
   * Python's `needle in v` where `needle` is a string: key membership for a
   * dict, element equality for a list, the substring test for a string, and
   * a TypeError (None here) for numbers, booleans and None.
   */
  function PyContains(needle: string, v: Json): (r: Option<bool>)
    ensures r.None? <==> (v.JNull? || v.JBool? || v.JNum?)
    ensures v.JObj? ==> r == Some(needle in v.fields)
    ensures v.JStr? ==> r == Some(Contains(needle, v.s))
    ensures v.JArr? ==> r == Some(JStr(needle) in v.items)
  {
    match v
    case JObj(m) => Some(needle in m)
    case JArr(xs) => Some(JStr(needle) in xs)
    case JStr(s) => Some(Contains(needle, s))
    case _ => None
  }

  /**
   * Python's `v[k]` with a string key, used by the source only after
   * `k in v` held: a dict yields the field, anything else raises TypeError.
   */
  function PyIndex(v: Json, k: string): (r: Option<Json>)
    ensures r.Some? <==> v.JObj? && k in v.fields
    ensures r.Some? ==> r.value == v.fields[k]
  {
    if v.JObj? && k in v.fields then Some(v.fields[k]) else None
  }
}
