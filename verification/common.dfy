/** Shared helpers: an optional value and the ASCII letter case mapping the solver relies on. */
module Common {

  datatype Option<+T> = None | Some(value: T)

  /** Rust's `char::is_uppercase`, restricted to ASCII: the 26 capitals, code points 65 to 90. */
  predicate IsUpper(c: char): (r: bool)
    ensures r <==> 65 <= c as int <= 90
  {
    'A' <= c <= 'Z'
  }

  /** Rust's `to_lowercase().nth(0)`, restricted to ASCII: identity on every other character. */
  function Lower(c: char): (r: char)
    ensures IsUpper(c) ==> r as int == c as int + 32
    ensures !IsUpper(c) ==> r == c
    ensures !IsUpper(r)
  {
    if IsUpper(c) then (c as int + 32) as char else c
  }

  /** The upper-case form of a lower-case ASCII letter. */
  function Upper(c: char): (r: char)
    requires 'a' <= c <= 'z'
    ensures IsUpper(r) && Lower(r) == c
  {
    (c as int - 32) as char
  }

  /** No element occurs twice. */
  predicate Distinct<T(==)>(s: seq<T>) {
    forall i, j :: 0 <= i < j < |s| ==> s[i] != s[j]
  }

  /** A sequence with a head is distinct iff its tail is and the head does not recur in it. */
  lemma DistinctCons<T>(s: seq<T>)
    requires s != []
    ensures Distinct(s) <==> Distinct(s[1..]) && s[0] !in s[1..]
  {
    if Distinct(s[1..]) && s[0] !in s[1..] {
      forall i, j | 0 <= i < j < |s| ensures s[i] != s[j] {
        if i == 0 {
          assert s[j] == s[1..][j - 1];
        } else {
          assert s[i] == s[1..][i - 1] && s[j] == s[1..][j - 1];
        }
      }
    }
    if Distinct(s) {
      forall i, j | 0 <= i < j < |s| - 1 ensures s[1..][i] != s[1..][j] {
        assert s[1..][i] == s[i + 1] && s[1..][j] == s[j + 1];
      }
      forall i | 0 <= i < |s| - 1 ensures s[1..][i] != s[0] {
        assert s[1..][i] == s[i + 1];
      }
    }
  }
}
