/** The error a worker returns when checking one IP-range prefix fails
    (`CheckIPRangeError` in awsscrape.go) and the text its `Error` method
    formats. The wrapped Go `error` is kept as the string its `%v` renders. */
module Errors {

  datatype Option<T> = None | Some(value: T)

  /** Which prefix failed, and the underlying error's text. */
  datatype CheckIPRangeError = CheckIPRangeError(ipRange: string, err: string)

  const Lead: string := "error checking IP range "
  const Sep: string := ": "

  /** `CheckIPRangeError.Error`: the fixed lead text, the prefix, a colon
      and a space, then the inner error. */
  function Message(e: CheckIPRangeError): (msg: string)
    ensures |msg| == |Lead| + |e.ipRange| + |Sep| + |e.err|
    ensures msg[..|Lead|] == Lead
    ensures msg[|msg| - |e.err|..] == e.err
  {
    Lead + e.ipRange + Sep + e.err
  }

  /** The position of the first occurrence of c in s, if any. */
  function IndexOf(s: string, c: char): (r: Option<nat>)
    ensures r.None? <==> c !in s
    ensures r.Some? ==> r.value < |s| && s[r.value] == c && c !in s[..r.value]
  {
    if s == [] then None
    else if s[0] == c then Some(0)
    else
      match IndexOf(s[1..], c)
      case None => None
      case Some(i) =>
        assert s[1..][..i] == s[1..i + 1];
        assert s[..i + 1] == [s[0]] + s[1..i + 1];
        Some(i + 1)
  }

  /** Reads a message back: the lead text, then everything up to the first
      colon as the prefix, then ": ", then the inner error. */
  function ParseMessage(msg: string): (r: Option<CheckIPRangeError>)
    ensures r.Some? ==> Message(r.value) == msg && ':' !in r.value.ipRange
  {
    if |msg| < |Lead| || msg[..|Lead|] != Lead then None
    else
      var rest := msg[|Lead|..];
      match IndexOf(rest, ':')
      case None => None
      case Some(i) =>
        if i + |Sep| <= |rest| && rest[i..i + |Sep|] == Sep then
          var e := CheckIPRangeError(rest[..i], rest[i + |Sep|..]);
          ParsedPieces(msg, i);
          Some(e)
        else None
  }

  lemma ParsedPieces(msg: string, i: nat)
    requires |Lead| <= |msg| && msg[..|Lead|] == Lead
    requires i + |Sep| <= |msg| - |Lead| && msg[|Lead|..][i..i + |Sep|] == Sep
    ensures Message(CheckIPRangeError(msg[|Lead|..][..i], msg[|Lead|..][i + |Sep|..])) == msg
  {
    var rest := msg[|Lead|..];
    assert rest == rest[..i] + rest[i..i + |Sep|] + rest[i + |Sep|..];
    assert msg == msg[..|Lead|] + rest;
  }

  /** Round trip: a prefix without a colon (every IPv4 CIDR string) can be
      read back, together with the inner error, from the message. */
  lemma MessageRoundTrip(e: CheckIPRangeError)
    requires ':' !in e.ipRange
    ensures ParseMessage(Message(e)) == Some(e)
  {
    var msg := Message(e);
    var rest := e.ipRange + Sep + e.err;
    assert msg == Lead + rest;
    assert msg[|Lead|..] == rest;
    var i := |e.ipRange|;
    assert rest[..i] == e.ipRange;
    assert rest[i] == ':';
    assert IndexOf(rest, ':') == Some(i);
    assert rest[i..i + |Sep|] == Sep;
    assert rest[i + |Sep|..] == e.err;
  }

  /** Two failures on colon-free prefixes give the same message only when
      they name the same prefix and the same inner error. */
  lemma MessageInjective(a: CheckIPRangeError, b: CheckIPRangeError)
    requires ':' !in a.ipRange && ':' !in b.ipRange
    requires Message(a) == Message(b)
    ensures a == b
  {
    MessageRoundTrip(a);
    MessageRoundTrip(b);
  }
}
