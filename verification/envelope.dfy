/**
 * The stored form of an encrypted message: the IV and the ciphertext, each
 * as hex, joined by one ':'. Opening it splits on ':' the way JavaScript's
 * `String.prototype.split` does and takes the first two pieces.
 */
module Envelope {
  import opened Wrappers
  import Hex

  const Separator: char := ':'

  /** The pieces glued back together with `sep` between neighbours. */
  function Join(parts: seq<string>, sep: char): string
    requires |parts| >= 1
    decreases |parts|
  {
    if |parts| == 1 then parts[0] else parts[0] + [sep] + Join(parts[1..], sep)
  }

  /** `s.split(sep)` for a one-character separator: every occurrence cuts. */
  function Split(s: string, sep: char): (parts: seq<string>)
    ensures |parts| >= 1
    ensures forall k :: 0 <= k < |parts| ==> sep !in parts[k]
    ensures Join(parts, sep) == s
    ensures |parts| == 1 <==> sep !in s
    decreases |s|
  {
    if |s| == 0 then [""]
    else
      var rest := Split(s[1..], sep);
      if s[0] == sep then
        assert s == [] + [sep] + s[1..];
        [""] + rest
      else
        JoinExtendsHead(rest, sep, s[0]);
        assert s == [s[0]] + s[1..];
        [[s[0]] + rest[0]] + rest[1..]
  }

  /** Prepending a character to the first piece prepends it to the join. */
  lemma JoinExtendsHead(parts: seq<string>, sep: char, c: char)
    requires |parts| >= 1
    ensures Join([[c] + parts[0]] + parts[1..], sep) == [c] + Join(parts, sep)
  {
  }

  /** Splitting `a:b` when neither half holds the separator gives exactly the two halves. */
  lemma {:induction false} SplitTwo(a: string, b: string, sep: char)
    requires sep !in a && sep !in b
    ensures Split(a + [sep] + b, sep) == [a, b]
    decreases |a|
  {
    var s := a + [sep] + b;
    if |a| == 0 {
      assert s[1..] == b;
    } else {
      assert s[1..] == a[1..] + [sep] + b;
      SplitTwo(a[1..], b, sep);
      assert [a[0]] + a[1..] == a;
    }
  }

  /** `iv.toString('hex') + ':' + encrypted`. */
  function Seal(iv: seq<Hex.byte>, ct: seq<Hex.byte>): (env: string)
    ensures Split(env, Separator) == [Hex.Encode(iv), Hex.Encode(ct)]
  {
    var a, b := Hex.Encode(iv), Hex.Encode(ct);
    assert Hex.AllHexDigits(a) && Hex.AllHexDigits(b);
    SplitTwo(a, b, Separator);
    a + [Separator] + b
  }

  /**
   * Pieces 0 and 1 of `env.split(':')`. With no ':' piece 1 is `undefined`,
   * which the decipher rejects, so that case is `None`.
   */
  function Open(env: string): (r: Option<(string, string)>)
    ensures r.Some? <==> Separator in env
    ensures r.Some? ==> Separator !in r.value.0 && Separator !in r.value.1
    ensures r.Some? ==> r.value.0 + [Separator] + r.value.1 <= env
    ensures r.Some? ==> var n := |r.value.0| + 1 + |r.value.1|;
                        n == |env| || (n < |env| && env[n] == Separator)
  {
    var parts := Split(env, Separator);
    if |parts| < 2 then None
    else
      JoinPrefix(parts, Separator);
      Some((parts[0], parts[1]))
  }

  /**
   * The first two pieces, with their separator, start the join, and the
   * second piece runs up to the end of the join or up to the next separator.
   */
  lemma JoinPrefix(parts: seq<string>, sep: char)
    requires |parts| >= 2
    ensures parts[0] + [sep] + parts[1] <= Join(parts, sep)
    ensures var n := |parts[0]| + 1 + |parts[1]|;
            n == |Join(parts, sep)| || (n < |Join(parts, sep)| && Join(parts, sep)[n] == sep)
  {
    var tail := parts[1..];
    assert tail[0] == parts[1];
    if |tail| > 1 {
      assert Join(tail, sep) == parts[1] + [sep] + Join(tail[1..], sep);
    }
  }

  /** Opening a sealed envelope recovers both hex parts. */
  lemma OpenSeal(iv: seq<Hex.byte>, ct: seq<Hex.byte>)
    ensures Open(Seal(iv, ct)) == Some((Hex.Encode(iv), Hex.Encode(ct)))
  {
  }
}
