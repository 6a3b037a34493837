/** Small vocabulary shared by the other modules: optional values, results and C strings. */
module Text {

  datatype Option<+T> = None | Some(value: T)

  datatype Result<+T, +E> = Ok(value: T) | Err(error: E)

  /** A user or group id: 32 bits, unsigned. */
  type Uid = n: nat | n < 0x1_0000_0000

  const NUL: char := '\0'

  /** What a C library call sees of a string handed over as a pointer: the text before the first NUL. */
  function CStr(s: string): (r: string)
    ensures NUL !in r && r <= s
    ensures NUL !in s ==> r == s
    ensures NUL in s ==> |r| < |s| && s[|r|] == NUL
  {
    if s == "" || s[0] == NUL then "" else [s[0]] + CStr(s[1..])
  }

  /** The position of the first `c`, as `std::string::find` reports it. */
  function IndexOf(s: string, c: char): (r: Option<nat>)
    ensures r.None? <==> c !in s
    ensures r.Some? ==> r.value < |s| && s[r.value] == c && c !in s[..r.value]
  {
    if s == "" then None
    else if s[0] == c then Some(0)
    else
      match IndexOf(s[1..], c)
      case None => None
      case Some(i) =>
        assert s[..i + 1] == [s[0]] + s[1..][..i];
        Some(i + 1)
  }

  /** The texts in order, with a separator between each two. */
  function Join(pieces: seq<string>, separator: string): string {
    if pieces == [] then ""
    else if |pieces| == 1 then pieces[0]
    else pieces[0] + separator + Join(pieces[1..], separator)
  }

  lemma JoinHead(first: string, rest: seq<string>, separator: string)
    requires rest != []
    ensures Join([first] + rest, separator) == first + (separator + Join(rest, separator))
  {
  }

  lemma {:induction false} JoinSnoc(pieces: seq<string>, last: string, separator: string)
    requires pieces != []
    ensures Join(pieces + [last], separator) == Join(pieces, separator) + separator + last
  {
    var all := pieces + [last];
    assert all[1..] == pieces[1..] + [last];
    if |pieces| == 1 {
      assert all[1..] == [last];
    } else {
      JoinSnoc(pieces[1..], last, separator);
      var rest := Join(pieces[1..], separator);
      assert Join(all, separator) == pieces[0] + separator + (rest + separator + last);
      assert pieces[0] + separator + (rest + separator + last) == (pieces[0] + separator + rest) + separator + last;
    }
  }

  /** The first `c` is the only place where the text before it has none and `c` follows. */
  lemma IndexOfUnique(left: string, c: char, right: string)
    requires c !in left
    ensures IndexOf(left + [c] + right, c) == Some(|left|)
  {
    var s := left + [c] + right;
    assert s[|left|] == c;
    assert s[..|left|] == left;
  }
}
