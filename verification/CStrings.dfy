/**
 Strings as C sees them: c_str() hands on everything up to the first NUL.
 */
module CStrings {

  function CString(s: string): (r: string)
    ensures '\0' !in r && |r| <= |s|
  {
    if s == "" || s[0] == '\0' then "" else [s[0]] + CString(s[1..])
  }

  /** Nothing is cut off exactly when there is no NUL. */
  lemma {:induction false} CStringExact(s: string)
    ensures CString(s) == s <==> '\0' !in s
  {
    if s != "" {
      assert s == [s[0]] + s[1..];
      CStringExact(s[1..]);
    }
  }

  lemma {:induction false} CStringEnds(s: string, t: string)
    ensures CString(s + "\0" + t) == CString(s)
  {
    if s == "" {
      assert s + "\0" + t == "\0" + t;
    } else {
      assert (s + "\0" + t)[1..] == s[1..] + "\0" + t;
      CStringEnds(s[1..], t);
    }
  }
}
