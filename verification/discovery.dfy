/** Hostname discovery (`discovery.py`): scan the /24 network of Home Assistant's source address
    and keep the addresses whose reverse-DNS name starts with `CozyLife_`. The lookups run
    concurrently in the source; here each address's lookup outcome is a parameter and the result
    is listed in scan order (the source lists it in completion order, so only its contents
    matter). */
module Discovery {
  import opened Wrappers
  import opened Text

  const HostnamePrefix: string := "CozyLife_"
  /** Host numbers 1 to 254 are scanned. */
  const ScanCount: nat := 254

  /** The outcome of `gethostbyaddr` under its one-second timeout. */
  datatype Lookup = Hostname(name: string) | LookupTimeout | HostNotFound | LookupError

  /** `".".join(source_ip.split(".")[:3])`: the first three dot-separated parts. */
  function Base(source: string): (r: string)
  {
    var parts := Split(source, '.');
    Join(parts[..if |parts| < 3 then |parts| else 3], ".")
  }

  /** For a dotted quad the base is its first three parts. */
  lemma BaseOfAddress(a: string, b: string, c: string, d: string)
    requires '.' !in a && '.' !in b && '.' !in c && '.' !in d
    ensures Base(a + "." + b + "." + c + "." + d) == a + "." + b + "." + c
  {
    var s := a + "." + b + "." + c + "." + d;
    assert s == a + ['.'] + (b + ['.'] + (c + ['.'] + d));
    SplitNoSep(d, '.');
    SplitAtFirst(c, d, '.');
    SplitAtFirst(b, c + ['.'] + d, '.');
    SplitAtFirst(a, b + ['.'] + (c + ['.'] + d), '.');
    var parts := Split(s, '.');
    assert parts == [a, b, c, d];
    assert parts[..3] == [a, b, c];
    assert [a, b, c][1..] == [b, c] && [b, c][1..] == [c];
    assert Join([c], ".") == c;
    assert Join([b, c], ".") == b + "." + c;
    assert Join([a, b, c], ".") == a + "." + (b + "." + c);
    assert s == a + "." + b + "." + c + "." + d;
  }

  /** An address with at most two dots is its own base. */
  lemma BaseOfShort(source: string)
    requires |Split(source, '.')| <= 3
    ensures Base(source) == source
  {
    var parts := Split(source, '.');
    assert parts[..|parts|] == parts;
    JoinSplit(source, '.');
  }

  /** The `i`-th address of the scan, `f"{base}.{i}"`. */
  function Candidate(base: string, i: nat): (r: string)
  {
    base + "." + NatToString(i)
  }

  /** The scanned addresses, host numbers 1 to 254 in order. */
  function Candidates(base: string): (r: seq<string>)
  {
    seq(ScanCount, i requires 0 <= i < ScanCount => Candidate(base, i + 1))
  }

  /** The scan covers 254 distinct addresses, all in the base's network. */
  lemma CandidatesSpec(base: string)
    ensures |Candidates(base)| == ScanCount && NoDup(Candidates(base))
    ensures forall x :: x in Candidates(base) ==> IsPrefix(base + ".", x)
    ensures forall i :: 1 <= i <= ScanCount ==> Candidate(base, i) in Candidates(base)
  {
    var c := Candidates(base);
    forall i, j | 0 <= i < j < |c|
      ensures c[i] != c[j]
    {
      if c[i] == c[j] {
        assert NatToString(i + 1) == c[i][|base| + 1..];
        assert NatToString(j + 1) == c[j][|base| + 1..];
        NatToStringInjective(i + 1, j + 1);
      }
    }
    forall i | 1 <= i <= ScanCount
      ensures Candidate(base, i) in c
    {
      assert c[i - 1] == Candidate(base, i);
    }
  }

  /** `check_ip`'s test on a lookup: a non-empty host name starting with `CozyLife_`; timeouts,
      unknown hosts and other errors find nothing. */
  predicate Found(l: Lookup) {
    l.Hostname? && l.name != "" && IsPrefix(HostnamePrefix, l.name)
  }

  /** The addresses of `ips`, in order, that are not the source address and whose lookup finds a
      CozyLife host name. */
  function Keep(ips: seq<string>, source: string, lookup: string -> Lookup): (r: seq<string>)
  {
    if |ips| == 0 then []
    else (if ips[0] != source && Found(lookup(ips[0])) then [ips[0]] else []) + Keep(ips[1..], source, lookup)
  }

  /** `Keep` keeps exactly the found addresses other than the source, never repeats one, and
      drops at least the source when it is among them. */
  lemma {:induction false} KeepSpec(ips: seq<string>, source: string, lookup: string -> Lookup)
    requires NoDup(ips)
    ensures var r := Keep(ips, source, lookup);
      && (forall x :: x in r <==> x in ips && x != source && Found(lookup(x)))
      && NoDup(r)
      && |r| + (if source in ips then 1 else 0) <= |ips|
  {
    if |ips| > 0 {
      var tail := ips[1..];
      assert NoDup(tail);
      KeepSpec(tail, source, lookup);
      assert forall x :: x in ips <==> x == ips[0] || x in tail;
      assert ips[0] !in tail;
      var r := Keep(ips, source, lookup);
      var rt := Keep(tail, source, lookup);
      if ips[0] != source && Found(lookup(ips[0])) {
        assert r == [ips[0]] + rt;
        forall i, j | 0 <= i < j < |r|
          ensures r[i] != r[j]
        {
          if i == 0 {
            assert r[j] == rt[j - 1];
            assert rt[j - 1] in rt;
          } else {
            assert r[i] == rt[i - 1] && r[j] == rt[j - 1];
          }
        }
      }
    }
  }

  /** `async_discover_devices`: no source address (an exception, `None` or an empty string) gives
      no addresses; otherwise the addresses of the source's /24 network, other than the source,
      whose host name marks a CozyLife device. */
  function HostnameScan(source: Option<string>, lookup: string -> Lookup): (r: seq<string>)
  {
    match source
    case None => []
    case Some(s) => if s == "" then [] else Keep(Candidates(Base(s)), s, lookup)
  }

  /** The scan finds exactly the CozyLife-named addresses of the network other than Home
      Assistant's own, each once; when the own address is in the scanned range it is skipped,
      so at most 253 addresses are found. */
  lemma HostnameScanSpec(source: Option<string>, lookup: string -> Lookup)
    ensures var r := HostnameScan(source, lookup);
      && (source.None? || source == Some("") ==> r == [])
      && (forall x :: x in r <==>
            source.Some? && source.value != "" && x in Candidates(Base(source.value))
            && x != source.value && Found(lookup(x)))
      && NoDup(r)
      && |r| <= ScanCount
      && (source.Some? && source.value in Candidates(Base(source.value)) ==> |r| < ScanCount)
  {
    if source.Some? && source.value != "" {
      var cands := Candidates(Base(source.value));
      CandidatesSpec(Base(source.value));
      KeepSpec(cands, source.value, lookup);
    }
  }

  /** For a dotted-quad source `a.b.c.k` with host number 1 to 254, the scan covers `a.b.c.1` to
      `a.b.c.254`, skips the source itself, and finds at most 253 devices. */
  lemma ScanSkipsOwnAddress(a: string, b: string, c: string, k: nat, lookup: string -> Lookup)
    requires '.' !in a && '.' !in b && '.' !in c && 1 <= k <= ScanCount
    ensures var source := a + "." + b + "." + c + "." + NatToString(k);
      && Base(source) == a + "." + b + "." + c
      && source in Candidates(Base(source))
      && source !in HostnameScan(Some(source), lookup)
      && |HostnameScan(Some(source), lookup)| < ScanCount
  {
    var d := NatToString(k);
    assert '.' !in d by {
      forall i | 0 <= i < |d|
        ensures d[i] != '.'
      {
      }
    }
    var source := a + "." + b + "." + c + "." + d;
    BaseOfAddress(a, b, c, d);
    CandidatesSpec(Base(source));
    assert Candidate(Base(source), k) == source;
    HostnameScanSpec(Some(source), lookup);
  }
}
