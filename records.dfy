/**
 * The values that flow through the lookup service: the resolver's answer
 * for one address, the record kept in the key-value store, and the body a
 * batch lookup returns.
 */
module Records {

  /** What the ASN resolver reports for an address it accepts. */
  datatype Attrs = Attrs(asn: string, prefix: string, owner: string)

  /** One lookup record, as written to the store under its `ip` key. */
  datatype Record = Record(ip: string, asn: string, prefix: string, owner: string)

  /** The body of a batch lookup: the records with their counters, or the error message. */
  datatype Output =
    | Results(results: seq<Record>, count: nat, cached: nat)
    | Error(message: string)

  /** The record built for `ip` from a successful resolver answer. */
  function MakeRecord(ip: string, a: Attrs): (r: Record)
    ensures r.ip == ip && Attrs(r.asn, r.prefix, r.owner) == a
  {
    Record(ip, a.asn, a.prefix, a.owner)
  }

  const InvalidSuffix: string := " is not a valid IP address"

  /** The message returned when the resolver rejects `ip`. */
  function InvalidAddress(ip: string): (m: string)
    ensures |m| == |ip| + |InvalidSuffix| && m[..|ip|] == ip && m[|ip|..] == InvalidSuffix
  {
    ip + InvalidSuffix
  }
}
