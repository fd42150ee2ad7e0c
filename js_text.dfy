/**
  The few pieces of JavaScript string semantics the two pages rely on:
  `String.prototype.includes`, and how a possibly-`undefined` value is
  written into a template literal.
 */
module JsText {

  /** A value that may be absent (for a topping: JavaScript's `undefined`). */
  datatype Option<T> = None | Some(value: T)

  /** Reference definition: `sub` occurs in `s` starting at index `i`. */
  ghost predicate OccursAt(s: string, sub: string, i: nat) {
    i + |sub| <= |s| && s[i..i + |sub|] == sub
  }

  /** Reference definition: `sub` occurs somewhere in `s`. */
  ghost predicate Occurs(s: string, sub: string) {
    exists i: nat :: OccursAt(s, sub, i)
  }

  /** `s.includes(sub)`: scans `s` from the left for a position where `sub` starts. */
  function Includes(s: string, sub: string): (r: bool)
    ensures sub <= s ==> r
    ensures r ==> |sub| <= |s|
    decreases |s|
  {
    if sub <= s then true
    else if s == [] then false
    else Includes(s[1..], sub)
  }

  /** `includes` answers exactly the question "does `sub` occur in `s`". */
  lemma {:induction false} IncludesIffOccurs(s: string, sub: string)
    ensures Includes(s, sub) <==> Occurs(s, sub)
    decreases |s|
  {
    if sub <= s {
      assert OccursAt(s, sub, 0);
    } else if s == [] {
      assert |sub| > 0;
    } else {
      IncludesIffOccurs(s[1..], sub);
      if Occurs(s[1..], sub) {
        var i: nat :| OccursAt(s[1..], sub, i);
        assert s[i + 1..i + 1 + |sub|] == s[1..][i..i + |sub|];
        assert OccursAt(s, sub, i + 1);
      }
      if Occurs(s, sub) {
        var i: nat :| OccursAt(s, sub, i);
        assert i != 0;
        assert s[1..][i - 1..i - 1 + |sub|] == s[i..i + |sub|];
        assert OccursAt(s[1..], sub, i - 1);
      }
    }
  }

  /** An occurrence at a known index is found by `includes`. */
  lemma {:induction false} IncludedAt(s: string, sub: string, i: nat)
    requires OccursAt(s, sub, i)
    ensures Includes(s, sub)
    decreases i
  {
    if i == 0 {
      assert sub <= s;
    } else if !(sub <= s) {
      assert s[1..][i - 1..i - 1 + |sub|] == s[i..i + |sub|];
      IncludedAt(s[1..], sub, i - 1);
    }
  }

  /** A non-empty `sub` whose first character is absent from `s` is not included in `s`. */
  lemma {:induction false} NotIncludedWithoutFirstChar(s: string, sub: string)
    requires |sub| > 0 && sub[0] !in s
    ensures !Includes(s, sub)
    decreases |s|
  {
    if s != [] {
      assert s[0] in s;
      assert !(sub <= s);
      NotIncludedWithoutFirstChar(s[1..], sub);
    } else {
      assert !(sub <= s);
    }
  }

  /**
    A template literal `${v}`: the string itself, or "undefined". The text
    "undefined" therefore comes from exactly two values.
   */
  function Interpolate(v: Option<string>): (r: string)
    ensures v.Some? ==> r == v.value
    ensures v.None? ==> r == "undefined"
    ensures r == "undefined" <==> v == None || v == Some("undefined")
  {
    match v
    case Some(t) => t
    case None => "undefined"
  }

  /**
    Two values interpolate to the same text exactly when they are equal, or
    one is absent and the other is the string "undefined".
   */
  lemma InterpolateConflatesUndefined(a: Option<string>, b: Option<string>)
    ensures Interpolate(a) == Interpolate(b)
        <==> a == b || (a == None && b == Some("undefined")) || (a == Some("undefined") && b == None)
  {
  }
}
