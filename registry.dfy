/** The subnet registry (ddsnet4u.rb:83-86): the configured mapping from
    "a.b.c.d/len" keys to metadata becomes an array of single-entry hashes
    from an `IPAddr` prefix to that metadata, one per key, in the mapping's
    iteration order. Parsing the dotted quad out of the key string is
    `IPAddr`'s own code and is not modelled: each configured key arrives as
    its declared address and declared length. */
module Registry {
  import opened IPv4
  import opened Results

  /** The metadata of a configured subnet: a YAML mapping; only "gw" is
      read. */
  type Meta = map<string, string>

  /** One configured key and its value. The value is None when the YAML
      leaves it empty (null). */
  datatype Declared = Declared(addr: Addr, len: nat, meta: Option<Meta>)

  /** One registry entry, `{ IPAddr.new(key) => value }`. */
  datatype Entry = Entry(prefix: Prefix, meta: Option<Meta>)

  predicate ValidLengths(decls: seq<Declared>) {
    forall i :: 0 <= i < |decls| ==> decls[i].len <= 32
  }

  /** Every entry's prefix has its host bits clear. */
  predicate Normalized(registry: seq<Entry>) {
    forall i :: 0 <= i < |registry| ==> registry[i].prefix.Normal()
  }

  /** Index of the first declared key whose length `IPAddr.new` rejects. */
  function FirstInvalid(decls: seq<Declared>): (i: nat)
    requires !ValidLengths(decls)
    ensures i < |decls| && decls[i].len > 32
    ensures ValidLengths(decls[..i])
  {
    if decls[0].len > 32 then 0
    else
      var j := 1 + FirstInvalid(decls[1..]);
      assert decls[1..][..j - 1] == decls[1..j];
      j
  }

  /** The registry conversion of ddsnet4u.rb:86. It fails with the first
      declared length over 32; otherwise it yields exactly one entry per
      declared key, in order, whose network is the declared address masked
      to the declared length and whose metadata is the key's value. */
  function Build(decls: seq<Declared>): (r: Result<seq<Entry>>)
    ensures r.Ok? <==> ValidLengths(decls)
    ensures r.Err? ==> r.fault == InvalidPrefixLength(decls[FirstInvalid(decls)].len)
    ensures r.Ok? ==> |r.value| == |decls| && Normalized(r.value)
    ensures r.Ok? ==> forall i :: 0 <= i < |decls| ==>
      r.value[i].prefix.len == decls[i].len &&
      r.value[i].prefix.network == Masked(decls[i].addr, decls[i].len) &&
      r.value[i].meta == decls[i].meta
  {
    if decls == [] then Ok([])
    else if decls[0].len > 32 then Err(InvalidPrefixLength(decls[0].len))
    else
      match Build(decls[1..])
      case Err(f) => Err(f)
      case Ok(rest) => Ok([Entry(MakePrefix(decls[0].addr, decls[0].len), decls[0].meta)] + rest)
  }
}
