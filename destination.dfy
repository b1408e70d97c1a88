/**
 * The destination exchanged once per session: the front door formats it as
 * "host:port" (CLIENT.py), the gateway splits that text on ':' and parses the port
 * (SERVER.py).
 */
module Destination {
  import opened Bytes
  import opened Text

  /** A destination host and port. The port is unbounded here: the gateway's `int()`
      accepts any decimal number, and only the later connect would reject one above 65535. */
  datatype Endpoint = Endpoint(host: string, port: nat)

  /** `f"{dest_host}:{dest_port}"`. */
  function FormatDestination(e: Endpoint): (text: string)
    ensures |text| > |e.host| && text[..|e.host|] == e.host && text[|e.host|] == ':'
    ensures ParseDecimal(text[|e.host| + 1..]) == Some(e.port)
    ensures IsAscii(e.host) ==> IsAscii(text)
  {
    var text := e.host + [':'] + Decimal(e.port);
    assert text[|e.host| + 1..] == Decimal(e.port);
    DecimalRoundTrip(e.port);
    text
  }

  /** `dest_host, dest_port = dest_info.split(':')` followed by `int(dest_port)`:
      the unpacking fails unless there are exactly two fields, `int` fails unless the
      second field is a decimal number. */
  function ParseDestination(text: string): (r: Option<Endpoint>)
    ensures Count(text, ':') != 1 ==> r.None?
    ensures r.Some? ==> ':' !in r.value.host
    ensures r.Some? ==> |text| > |r.value.host| && text[..|r.value.host|] == r.value.host
                        && text[|r.value.host|] == ':'
                        && ParseDecimal(text[|r.value.host| + 1..]) == Some(r.value.port)
  {
    var fields := Split(text, ':');
    if |fields| != 2 then None
    else
      match ParseDecimal(fields[1])
      case None => None
      case Some(port) =>
        assert Join(fields, ':') == fields[0] + [':'] + fields[1];
        assert text[|fields[0]| + 1..] == fields[1];
        Some(Endpoint(fields[0], port))
  }

  /** For a host without ':', parsing undoes formatting. */
  lemma DestinationRoundTrip(e: Endpoint)
    requires ':' !in e.host
    ensures ParseDestination(FormatDestination(e)) == Some(e)
  {
    var digits := Decimal(e.port);
    assert Join([e.host, digits], ':') == FormatDestination(e);
    SplitJoin([e.host, digits], ':');
    DecimalRoundTrip(e.port);
  }

  /** Any colon-free host followed by ':' and a digit string is accepted, the digits read
      as a decimal number whatever their leading zeros. */
  lemma ParseDestinationOfParts(host: string, digits: string)
    requires ':' !in host && |digits| > 0 && AllDigits(digits)
    ensures ParseDestination(host + [':'] + digits) == Some(Endpoint(host, DigitsValue(digits)))
  {
    assert forall i :: 0 <= i < |digits| ==> digits[i] != ':';
    SplitAfterField(host, ':', digits);
    SplitNoSeparator(digits, ':');
  }

  /** `int("080") == 80`: "a:080" is the host "a" with port 80. */
  lemma ExampleLeadingZeroPort()
    ensures ParseDestination("a:080") == Some(Endpoint("a", 80))
  {
    assert "a:080" == "a" + [':'] + "080";
    assert DigitsValue("080") == 80 by {
      assert "080"[..2] == "08" && "08"[..1] == "0" && "0"[..0] == "";
    }
    ParseDestinationOfParts("a", "080");
  }

  /** A host with a ':' in it never survives the exchange. */
  lemma ColonInHostRejected(e: Endpoint)
    requires ':' in e.host
    ensures ParseDestination(FormatDestination(e)).None?
  {
  }
}
