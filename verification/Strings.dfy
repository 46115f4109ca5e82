/** Go's strings.Cut, on strings whose chars stand for bytes. */
module Strings {

  function Cut(s: string, sep: char): (r: (string, string))
    ensures sep !in r.0
    ensures if sep in s then s == r.0 + [sep] + r.1 else r == (s, "")
  {
    if s == "" then ("", "")
    else if s[0] == sep then
      assert s == "" + [sep] + s[1..];
      ("", s[1..])
    else
      var (a, b) := Cut(s[1..], sep);
      assert s == [s[0]] + s[1..];
      assert sep in s <==> sep in s[1..];
      assert sep in s ==> [s[0]] + (a + [sep] + b) == [s[0]] + a + [sep] + b;
      ([s[0]] + a, b)
  }

  lemma {:induction false} CutAt(a: string, sep: char, b: string)
    requires sep !in a
    ensures Cut(a + [sep] + b, sep) == (a, b)
  {
    var s := a + [sep] + b;
    if a == "" {
      assert s[1..] == b;
    } else {
      assert s[1..] == a[1..] + [sep] + b;
      CutAt(a[1..], sep, b);
      assert s[0] == a[0] && a[0] in a;
      assert a == [a[0]] + a[1..];
    }
  }
}
