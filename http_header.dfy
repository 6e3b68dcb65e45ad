/**
 * The HTTP header field finder of the WebSocket handshake.
 *
 * The header is the C string held in the request buffer: its characters up to
 * the first NUL byte.  Positions are indices into that string; a NULL result
 * of the C routine is `None`.  A character read one past the end is the
 * terminating NUL, which is not alphanumeric.
 */
module HttpHeader {
  import opened Wrappers

  /** The C string stored in a byte buffer: every byte before the first NUL. */
  function Text(h: seq<byte>): (s: string)
    ensures |s| <= |h|
    ensures forall i :: 0 <= i < |s| ==> h[i] != 0 && s[i] == h[i] as char
    ensures |s| < |h| ==> h[|s|] == 0
  {
    if h == [] || h[0] == 0 then [] else [h[0] as char] + Text(h[1..])
  }

  /** The character at `i`, reading the terminating NUL past the end. */
  function CharAt(s: string, i: int): char
  {
    if 0 <= i < |s| then s[i] else '\0'
  }

  /** `isalnum` in the C locale. */
  predicate IsAlnum(c: char)
  {
    ('0' <= c <= '9') || ('A' <= c <= 'Z') || ('a' <= c <= 'z')
  }

  /** `pat` occurs in `s` starting at `k`. */
  predicate Occurs(s: string, pat: string, k: nat)
  {
    k + |pat| <= |s| && s[k..k + |pat|] == pat
  }

  /** `k` is the first occurrence of `pat` in `s` at or after `from`. */
  predicate FirstAtOrAfter(s: string, pat: string, from: nat, k: nat)
  {
    from <= k && Occurs(s, pat, k) && forall j :: from <= j < k ==> !Occurs(s, pat, j)
  }

  /** `strstr(s + from, pat)`: the first occurrence of `pat` at or after `from`. */
  function FindFrom(s: string, pat: string, from: nat): (r: Option<nat>)
    decreases |s| - from
    ensures r.Some? ==> FirstAtOrAfter(s, pat, from, r.value)
    ensures r.None? ==> forall k :: from <= k ==> !Occurs(s, pat, k)
  {
    if from + |pat| > |s| then None
    else if s[from..from + |pat|] == pat then Some(from)
    else FindFrom(s, pat, from + 1)
  }

  /**
   * An occurrence of the field name at `k` is a field: it is preceded by
   * CRLF and followed, inside the header, by a colon.
   */
  predicate Qualifies(s: string, name: string, k: nat)
  {
    k >= 2 && k + |name| < |s| && s[k - 2] == '\r' && s[k - 1] == '\n' && s[k + |name|] == ':'
  }

  /** `k` is where the field `name` starts: the first qualifying occurrence. */
  predicate IsFirstField(s: string, name: string, k: nat)
  {
    Occurs(s, name, k) && Qualifies(s, name, k)
    && forall j :: 0 <= j < k && Occurs(s, name, j) ==> !Qualifies(s, name, j)
  }

  /** Some CRLF starts at or after `k`. */
  predicate HasCrlfFrom(s: string, k: nat)
  {
    exists c :: k <= c < |s| && Occurs(s, "\r\n", c)
  }

  /**
   * The do-while search: look for `name` from `from`, accept the occurrence if
   * it qualifies as a field, otherwise search again one position further.
   */
  function FindField(s: string, name: string, from: nat): (r: Option<nat>)
    requires from <= |s| + 1
    decreases |s| + 1 - from
    ensures r.Some? ==> from <= r.value && Occurs(s, name, r.value) && Qualifies(s, name, r.value)
    ensures forall j :: from <= j && Occurs(s, name, j) && (r.None? || j < r.value) ==> !Qualifies(s, name, j)
  {
    match FindFrom(s, name, from)
    case None => None
    case Some(k) => if Qualifies(s, name, k) then Some(k) else FindField(s, name, k + 1)
  }

  /**
   * `http_header_find_field_value`: the field search starts at offset 1; with
   * no `value` the result is just past the colon, otherwise it is the first
   * occurrence of `value` at or after the field, when it lies before the
   * field's CRLF and is delimited by non-alphanumerics.
   */
  function FindFieldValue(s: string, name: string, value: Option<string>): (r: Option<nat>)
    ensures r.Some? ==> r.value <= |s|
  {
    match FindField(s, name, 1)
    case None => None
    case Some(k) =>
      match FindFrom(s, "\r\n", k)
      case None => None
      case Some(crlf) =>
        if value.None? then Some(k + |name| + 1)
        else
          match FindFrom(s, value.value, k)
          case None => None
          case Some(v) =>
            if v > crlf then None
            else if IsAlnum(CharAt(s, v - 1)) || IsAlnum(CharAt(s, v + |value.value|)) then None
            else Some(v)
  }

  /** The field search from offset 1 finds exactly the first qualifying occurrence. */
  lemma {:induction false} FieldSearch(s: string, name: string)
    ensures forall k: nat :: FindField(s, name, 1) == Some(k) <==> IsFirstField(s, name, k)
    ensures FindField(s, name, 1).None? <==> forall k: nat :: !IsFirstField(s, name, k)
  {
    var r := FindField(s, name, 1);
    forall k: nat | IsFirstField(s, name, k)
      ensures r == Some(k)
    {
    }
    if r.Some? {
      assert IsFirstField(s, name, r.value);
    }
  }

  /** At most one position is the first field. */
  lemma FirstFieldUnique(s: string, name: string, k1: nat, k2: nat)
    requires IsFirstField(s, name, k1) && IsFirstField(s, name, k2)
    ensures k1 == k2
  {
  }

  /** No field starts at offset 0 or 1: the name must follow a CRLF. */
  lemma FieldNeedsCrlfBefore(s: string, name: string, k: nat)
    requires FindFieldValue(s, name, None) == Some(k + |name| + 1)
    ensures k >= 2 && s[k - 2..k] == "\r\n"
  {
    FieldSearch(s, name);
    var f := FindField(s, name, 1).value;
  }

  /**
   * Value-less lookup: when a CRLF follows the field at `k`, the values start
   * just past its colon, at `k + |name| + 1`.
   */
  lemma ValuelessLookup(s: string, name: string, k: nat)
    requires IsFirstField(s, name, k) && HasCrlfFrom(s, k)
    ensures FindFieldValue(s, name, None) == Some(k + |name| + 1)
  {
    FieldSearch(s, name);
    var c :| k <= c < |s| && Occurs(s, "\r\n", c);
  }

  /**
   * Value lookup: with the field at `k`, its first CRLF at `c` and the first
   * occurrence of `v` at or after the field at `p`, the lookup yields `p`
   * exactly when `p` starts no later than `c` and neither neighbour of the
   * occurrence is alphanumeric; a later, well-delimited occurrence is never
   * considered.
   */
  lemma ValueLookup(s: string, name: string, v: string, k: nat, c: nat, p: nat)
    requires IsFirstField(s, name, k)
    requires FirstAtOrAfter(s, "\r\n", k, c)
    requires FirstAtOrAfter(s, v, k, p)
    ensures FindFieldValue(s, name, Some(v))
      == if p <= c && !IsAlnum(CharAt(s, p - 1)) && !IsAlnum(CharAt(s, p + |v|)) then Some(p) else None
  {
    FieldSearch(s, name);
    FirstUnique(s, "\r\n", k, c, FindFrom(s, "\r\n", k));
    FirstUnique(s, v, k, p, FindFrom(s, v, k));
  }

  /** A field with no CRLF after it yields no value. */
  lemma ValueLookupNoCrlf(s: string, name: string, v: Option<string>, k: nat)
    requires IsFirstField(s, name, k) && !HasCrlfFrom(s, k)
    ensures FindFieldValue(s, name, v) == None
  {
    FieldSearch(s, name);
  }

  /** A value that does not occur at or after the field is not found. */
  lemma ValueLookupAbsent(s: string, name: string, v: string, k: nat)
    requires IsFirstField(s, name, k)
    requires forall j :: k <= j ==> !Occurs(s, v, j)
    ensures FindFieldValue(s, name, Some(v)) == None
  {
    FieldSearch(s, name);
  }

  /** Without a field called `name`, every lookup fails. */
  lemma FieldAbsent(s: string, name: string, v: Option<string>)
    requires forall k: nat :: !IsFirstField(s, name, k)
    ensures FindFieldValue(s, name, v) == None
  {
    FieldSearch(s, name);
  }

  /** The first occurrence at or after `from` is what `FindFrom` returns. */
  lemma FirstUnique(s: string, pat: string, from: nat, k: nat, r: Option<nat>)
    requires FirstAtOrAfter(s, pat, from, k)
    requires r == FindFrom(s, pat, from)
    ensures r == Some(k)
  {
  }

  /**
   * A field whose name holds no carriage return ends in a CR after the
   * position the value-less lookup returns; scanning from there for a CR stays
   * inside the header.
   */
  lemma CrAfterValues(s: string, name: string, p: nat)
    requires forall i :: 0 <= i < |name| ==> name[i] != '\r'
    requires FindFieldValue(s, name, None) == Some(p)
    ensures exists c :: p <= c < |s| && s[c] == '\r'
  {
    var k := FindField(s, name, 1).value;
    var c := FindFrom(s, "\r\n", k).value;
    assert p == k + |name| + 1;
    assert s[c] == '\r' by { assert s[c..c + 2] == "\r\n"; }
  }
}
