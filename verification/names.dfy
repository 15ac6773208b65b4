/**
  Scene and object names. The engine copies a caller's name into a fixed
  64-byte buffer with `strncpy` and looks scenes up with a 64-byte `strncmp`.
 */
module Names {
  import opened Wrappers

  /** Size of a name buffer, terminator included. */
  const NameBufferSize: nat := 64

  /** The longest name a buffer holds. */
  const MaxNameLength: nat := NameBufferSize - 1

  /** A C string: the characters before its terminator, so none of them is NUL. */
  type CStr = s: seq<char> | '\0' !in s

  /** The name kept in a buffer after copying at most 63 characters of `name`;
      a null name leaves the buffer empty. */
  function StoreName(name: Option<CStr>): (r: CStr)
    ensures |r| <= MaxNameLength
    ensures name.None? ==> r == []
    ensures name.Some? ==> r <= name.value && (r == name.value || |r| == MaxNameLength)
  {
    match name
    case None => []
    case Some(s) => if |s| <= MaxNameLength then s else s[..MaxNameLength]
  }

  /** `strncmp(a, b, n) == 0` for two terminated strings. */
  function StrNEqual(a: CStr, b: CStr, n: nat): bool
    decreases n
  {
    if n == 0 then true
    else if |a| == 0 || |b| == 0 then |a| == 0 && |b| == 0
    else a[0] == b[0] && StrNEqual(a[1..], b[1..], n - 1)
  }

  /** When `a` fits in the compared length, the bounded comparison is plain equality. */
  lemma {:induction false} StrNEqualFits(a: CStr, b: CStr, n: nat)
    requires |a| < n
    ensures StrNEqual(a, b, n) <==> a == b
    decreases n
  {
    if |a| == 0 || |b| == 0 {
    } else {
      StrNEqualFits(a[1..], b[1..], n - 1);
      assert a == [a[0]] + a[1..] && b == [b[0]] + b[1..];
    }
  }

  /** A stored name is found by a comparison over the whole buffer (64 bytes,
      or more) against the caller's original spelling exactly when that
      spelling was not truncated. */
  lemma StoredNameMatchesOriginal(name: CStr, n: nat)
    requires n >= NameBufferSize
    ensures StrNEqual(StoreName(Some(name)), name, n) <==> |name| <= MaxNameLength
  {
    StrNEqualFits(StoreName(Some(name)), name, n);
  }
}
