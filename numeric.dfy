/** chaos_is_int and chaos_is_float: validators for decimal literals. The argument is the
    text of a C string (the chars before its terminating NUL). */
module Numeric {
  import opened Common

  /** `'0'..'9'`, compared as unsigned chars as the C code does. */
  predicate IsDigit(c: char)
  {
    '0' <= c <= '9'
  }

  /** 1 when the first char is a `+` or `-` sign, else 0. */
  function SignLength(v: seq<char>): nat
    requires |v| > 0
  {
    if v[0] == '+' || v[0] == '-' then 1 else 0
  }

  /** What chaos_is_int accepts: a non-empty text whose chars after an optional sign are all
      digits. A lone sign has no chars after it, so `"+"` and `"-"` are accepted. */
  ghost predicate IntLiteral(v: seq<char>)
  {
    |v| > 0 && forall i :: SignLength(v) <= i < |v| ==> IsDigit(v[i])
  }

  /** What chaos_is_float accepts: a non-empty text that neither starts nor ends with `.`,
      whose chars after an optional sign are digits or `.`, with exactly one `.`. */
  ghost predicate FloatLiteral(v: seq<char>)
  {
    |v| > 0 && v[0] != '.' && v[|v| - 1] != '.' &&
    (forall i :: SignLength(v) <= i < |v| ==> IsDigit(v[i]) || v[i] == '.') &&
    Occ(v, '.') == 1
  }

  /** chaos_is_int. */
  method IsInt(v: seq<char>) returns (ok: bool)
    requires '\0' !in v
    ensures ok <==> IntLiteral(v)
  {
    var len := |v|;
    if len == 0 {
      return false;
    }
    var sign := 0;
    if v[0] == '+' || v[0] == '-' {
      sign := 1;
    }
    var i := sign;
    while i < len
      invariant sign <= i <= len
      invariant forall k :: sign <= k < i ==> IsDigit(v[k])
    {
      if v[i] < '0' || v[i] > '9' {
        return false;
      }
      i := i + 1;
    }
    return true;
  }

  /** chaos_is_float. The loop gives up as soon as it has seen a second `.`. */
  method IsFloat(v: seq<char>) returns (ok: bool)
    requires '\0' !in v
    ensures ok <==> FloatLiteral(v)
  {
    var len := |v|;
    var dots := 0;
    var sign := 0;
    if len == 0 {
      return false;
    }
    if v[0] == '.' || v[len - 1] == '.' {
      return false;
    }
    if v[0] == '-' || v[0] == '+' {
      sign := 1;
    }
    if sign == 1 {
      OccDropFirst(v, '.');
    } else {
      assert v[sign..] == v;
    }
    var i := sign;
    while i < len
      invariant sign <= i <= len
      invariant dots == Occ(v[sign..i], '.')
      invariant forall k :: sign <= k < i ==> IsDigit(v[k]) || v[k] == '.'
    {
      if dots > 1 {
        OccSliceBound(v, sign, i, '.');
        return false;
      }
      OccSliceStep(v, sign, i, '.');
      if v[i] == '.' {
        dots := dots + 1;
        i := i + 1;
        continue;
      }
      if v[i] < '0' || v[i] > '9' {
        return false;
      }
      i := i + 1;
    }
    assert v[sign..i] == v[sign..];
    return dots == 1;
  }

  /** The sign-only texts: accepted as integers, refused as floats. */
  lemma LoneSign()
    ensures IntLiteral("+") && IntLiteral("-")
    ensures !FloatLiteral("+") && !FloatLiteral("-")
  {
    assert "+"[..0] == [];
    assert "-"[..0] == [];
  }

  /** No text is both: an integer literal has no `.`, a float literal has one. */
  lemma IntIsNotFloat(v: seq<char>)
    ensures !(IntLiteral(v) && FloatLiteral(v))
  {
    if IntLiteral(v) {
      assert forall k :: 0 <= k < |v| ==> v[k] != '.';
      OccPositive(v, '.');
    }
  }
}
