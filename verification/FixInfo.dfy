/** The identity string a fixed address is recorded under: `<namespace>/<pod>/<index>`. */
module FixInfo {
  import opened Text

  const CUT: set<char> := {'\r', '\n', '\t', ' '}

  /** IPAMGenFixInfo */
  function Generate(ns: string, pod: string, index: nat): string {
    Trim(ns + "/" + pod + "/" + Decimal(index), CUT)
  }

  /** IPAMParseFixInfo */
  function Parse(info: string): (string, string) {
    var v := Split(Trim(info, CUT), '/');
    if |v| < 2 then ("waitToDel", "waitToDel") else (v[0], v[1])
  }

  /** A record without a separator is never the record of a pod that can be looked up: it parses to a name that stands
      for deletion. */
  lemma ParseBroken(info: string)
    requires '/' !in Trim(info, CUT)
    ensures Parse(info) == ("waitToDel", "waitToDel")
  {
    SplitNone(Trim(info, CUT), '/');
  }

  /** A name that survives: no separator, and no trimmed character in front. */
  predicate CleanNamespace(ns: string) {
    '/' !in ns && (ns != "" ==> ns[0] !in CUT)
  }

  lemma TrimClean(s: string)
    requires s != "" && s[0] !in CUT && s[|s| - 1] !in CUT
    ensures Trim(s, CUT) == s
  {
  }

  lemma GenerateClean(ns: string, pod: string, index: nat)
    requires ns != "" ==> ns[0] !in CUT
    ensures Generate(ns, pod, index) == ns + "/" + pod + "/" + Decimal(index)
    ensures Trim(Generate(ns, pod, index), CUT) == Generate(ns, pod, index)
  {
    var s := ns + "/" + pod + "/" + Decimal(index);
    assert s[|s| - 1] == Decimal(index)[|Decimal(index)| - 1];
    assert s[0] == if ns == "" then '/' else ns[0];
    TrimClean(s);
  }

  lemma ParseGenerateSplit(ns: string, pod: string, index: nat)
    requires CleanNamespace(ns) && '/' !in pod
    ensures Split(Trim(Generate(ns, pod, index), CUT), '/') == [ns, pod, Decimal(index)]
  {
    GenerateClean(ns, pod, index);
    var d := Decimal(index);
    assert ns + "/" + pod + "/" + d == ns + ['/'] + (pod + ['/'] + d);
    SplitFirst(ns, '/', pod + ['/'] + d);
    SplitFirst(pod, '/', d);
    SplitNone(d, '/');
  }

  /** Parsing returns the namespace and the pod for exactly the clean names. */
  lemma ParseGenerateExactly(ns: string, pod: string, index: nat)
    ensures Parse(Generate(ns, pod, index)) == (ns, pod) <==> CleanNamespace(ns) && '/' !in pod
  {
    if CleanNamespace(ns) && '/' !in pod {
      ParseGenerateSplit(ns, pod, index);
    }
    if Parse(Generate(ns, pod, index)) == (ns, pod) {
      var t := Trim(Generate(ns, pod, index), CUT);
      var v := Split(t, '/');
      TrimEnds(Generate(ns, pod, index), CUT);
      if |v| >= 2 {
        SplitParts(t, '/', 0);
        SplitParts(t, '/', 1);
        SplitHead(t, '/');
      }
    }
  }

  lemma SplitHead(s: string, c: char)
    ensures Split(s, c)[0] <= s
  {
  }

  /** Distinct (namespace, pod, index) triples of clean names have distinct records. */
  lemma GenerateInjective(ns: string, pod: string, i: nat, ns': string, pod': string, j: nat)
    requires CleanNamespace(ns) && '/' !in pod && CleanNamespace(ns') && '/' !in pod'
    requires Generate(ns, pod, i) == Generate(ns', pod', j)
    ensures ns == ns' && pod == pod' && i == j
  {
    ParseGenerateSplit(ns, pod, i);
    ParseGenerateSplit(ns', pod', j);
    assert [ns, pod, Decimal(i)] == [ns', pod', Decimal(j)];
    assert Decimal(i) == [ns, pod, Decimal(i)][2];
    ParseDecimal(i);
    ParseDecimal(j);
  }
}
