/** The String_View helpers of chaos.h. A C view is a pointer and a length; here the
    pointer is an offset `start` into the buffer `buf` it points into. */
module StringView {

  /** `count` chars of `buf` from `start` on. */
  datatype View = View(buf: seq<char>, start: nat, count: nat)
  {
    /** The view lies inside its buffer. */
    predicate Valid()
    {
      start + count <= |buf|
    }

    /** The chars the view shows. */
    function Text(): seq<char>
      requires Valid()
    {
      buf[start..start + count]
    }
  }

  /** Length of the leading run of `' '` (only the space char, not tabs or newlines). */
  function LeadingSpaces(s: seq<char>): (n: nat)
    ensures n <= |s|
    ensures forall i :: 0 <= i < n ==> s[i] == ' '
    ensures n == |s| || s[n] != ' '
  {
    if s == [] || s[0] != ' ' then 0 else 1 + LeadingSpaces(s[1..])
  }

  /** Length of the trailing run of `' '`. */
  function TrailingSpaces(s: seq<char>): (n: nat)
    ensures n <= |s|
    ensures forall i :: |s| - n <= i < |s| ==> s[i] == ' '
    ensures n == |s| || s[|s| - 1 - n] != ' '
  {
    if s == [] || s[|s| - 1] != ' ' then 0 else 1 + TrailingSpaces(s[..|s| - 1])
  }

  /** The view chaos_trim_left returns: same end, start moved past exactly the leading spaces. */
  function TrimLeftView(v: View): (r: View)
    requires v.Valid()
    ensures r.Valid() && r.buf == v.buf
    ensures v.start <= r.start && r.start + r.count == v.start + v.count
    ensures forall i :: 0 <= i < r.start - v.start ==> v.Text()[i] == ' '
    ensures r.count == 0 || r.Text()[0] != ' '
  {
    var n := LeadingSpaces(v.Text());
    View(v.buf, v.start + n, v.count - n)
  }

  /** The view chaos_trim_right returns: same start, exactly the trailing spaces cut off. */
  function TrimRightView(v: View): (r: View)
    requires v.Valid()
    ensures r.Valid() && r.buf == v.buf
    ensures r.start == v.start && r.count <= v.count
    ensures forall i :: r.count <= i < v.count ==> v.Text()[i] == ' '
    ensures r.count == 0 || r.Text()[r.count - 1] != ' '
  {
    View(v.buf, v.start, v.count - TrailingSpaces(v.Text()))
  }

  /** chaos_trim: trim the left end, then the right end. */
  function TrimView(v: View): View
    requires v.Valid()
  {
    TrimRightView(TrimLeftView(v))
  }

  /** chaos_trim_left: scans the leading spaces; the argument is left as it was. */
  method TrimLeft(sv: View) returns (r: View)
    requires sv.Valid()
    ensures r == TrimLeftView(sv)
  {
    var data := sv.Text();
    var i := 0;
    while i < sv.count && data[i] == ' '
      invariant i <= sv.count
      invariant forall k :: 0 <= k < i ==> data[k] == ' '
    {
      i := i + 1;
    }
    r := View(sv.buf, sv.start + i, sv.count - i);
    LeadingSpacesIsRun(data, i);
  }

  /** chaos_trim_right: scans back over the trailing spaces. */
  method TrimRight(sv: View) returns (r: View)
    requires sv.Valid()
    ensures r == TrimRightView(sv)
  {
    var data := sv.Text();
    var i: nat := sv.count;
    while i > 0 && data[i - 1] == ' '
      invariant i <= sv.count
      invariant forall k :: i <= k < sv.count ==> data[k] == ' '
    {
      i := i - 1;
    }
    r := View(sv.buf, sv.start, i);
    TrailingSpacesIsRun(data, sv.count - i);
  }

  /** chaos_trim. */
  method Trim(sv: View) returns (r: View)
    requires sv.Valid()
    ensures r == TrimView(sv)
  {
    var tmp := TrimLeft(sv);
    r := TrimRight(tmp);
  }

  /** A run of spaces ended by a non-space (or by the end) is the leading run. */
  lemma {:induction false} LeadingSpacesIsRun(s: seq<char>, n: nat)
    requires n <= |s|
    requires forall i :: 0 <= i < n ==> s[i] == ' '
    requires n == |s| || s[n] != ' '
    ensures LeadingSpaces(s) == n
  {
  }

  /** A run of spaces begun after a non-space (or at the start) is the trailing run. */
  lemma {:induction false} TrailingSpacesIsRun(s: seq<char>, n: nat)
    requires n <= |s|
    requires forall i :: |s| - n <= i < |s| ==> s[i] == ' '
    requires n == |s| || s[|s| - 1 - n] != ' '
    ensures TrailingSpaces(s) == n
  {
  }

  /** Trimming a trimmed view changes nothing: chaos_trim is idempotent, view for view. */
  lemma TrimIdempotent(v: View)
    requires v.Valid()
    ensures TrimView(TrimView(v)) == TrimView(v)
  {
    var u := TrimLeftView(v);
    var w := TrimRightView(u);
    if w.count > 0 {
      assert w.Text()[0] == u.Text()[0];
    }
    TrimLeftUnchanged(w);
    TrimRightUnchanged(w);
  }

  /** A view that does not start with a space is its own left trim. */
  lemma TrimLeftUnchanged(v: View)
    requires v.Valid() && (v.count == 0 || v.Text()[0] != ' ')
    ensures TrimLeftView(v) == v
  {
    LeadingSpacesIsRun(v.Text(), 0);
  }

  /** A view that does not end with a space is its own right trim. */
  lemma TrimRightUnchanged(v: View)
    requires v.Valid() && (v.count == 0 || v.Text()[v.count - 1] != ' ')
    ensures TrimRightView(v) == v
  {
    TrailingSpacesIsRun(v.Text(), 0);
  }

  /** chaos_split_by_delim: returns the longest prefix of `sv` free of `delim` and, in `rest`,
      what the C function leaves in `*sv`: the text after that prefix and the delimiter. */
  method SplitByDelim(sv: View, delim: char) returns (result: View, rest: View)
    requires sv.Valid()
    ensures result.Valid() && rest.Valid() && result.buf == sv.buf && rest.buf == sv.buf
    ensures result.start == sv.start && result.count <= sv.count
    ensures delim !in result.Text()
    ensures result.count < sv.count ==> sv.Text()[result.count] == delim
    ensures delim in sv.Text() ==> result.Text() + [delim] + rest.Text() == sv.Text()
    ensures delim in sv.Text() ==> rest.start + rest.count == sv.start + sv.count
    ensures delim !in sv.Text() ==> result == sv && rest == View(sv.buf, sv.start + sv.count, 0)
  {
    var data := sv.Text();
    var i := 0;
    while i < sv.count && data[i] != delim
      invariant i <= sv.count
      invariant forall k :: 0 <= k < i ==> data[k] != delim
    {
      i := i + 1;
    }
    result := View(sv.buf, sv.start, i);
    assert result.Text() == data[..i];
    if i < sv.count {
      rest := View(sv.buf, sv.start + i + 1, sv.count - (i + 1));
      assert rest.Text() == data[i + 1..];
      assert data == data[..i] + [delim] + data[i + 1..];
    } else {
      rest := View(sv.buf, sv.start + i, sv.count - i);
      assert data[..i] == data;
    }
  }
}
