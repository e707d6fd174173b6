/** The names under which sensitive environment variables are kept in the secret store. */
module SecretNames {
  import opened Text
  import Base64Url

  /** /^[a-zA-Z][a-zA-Z0-9_-]*$/ */
  predicate ValidInstanceId(s: string) {
    s != "" && IsLetter(s[0]) && forall i | 0 <= i < |s| :: IsLetter(s[i]) || IsDigit(s[i]) || s[i] == '_' || s[i] == '-'
  }

  /** /^[a-zA-Z_][a-zA-Z0-9_]*$/ */
  predicate ValidName(s: string) {
    s != "" && !IsDigit(s[0]) && forall i | 0 <= i < |s| :: IsLetter(s[i]) || IsDigit(s[i]) || s[i] == '_'
  }

  /** The identifiers and names the schema admits. */
  type InstanceId = s: string | ValidInstanceId(s) witness "a"
  type VariableName = s: string | ValidName(s) witness "a"

  function SecretName(instanceId: InstanceId, name: VariableName): string {
    "provider-env-" + Base64Url.Encode(instanceId) + "-" + Base64Url.Encode(name)
  }

  lemma NoDash(s: string)
    requires ValidInstanceId(s) || ValidName(s)
    ensures Base64Url.IsAscii(s) && '-' !in Base64Url.Encode(s)
  {
    Base64Url.DashExactly(s);
  }

  lemma SplitAtDash(a: string, b: string, c: string, d: string)
    requires a + "-" + b == c + "-" + d && '-' !in a && '-' !in c
    ensures a == c && b == d
  {
    var s, t := a + "-" + b, c + "-" + d;
    assert s[|a|] == '-' && t[|c|] == '-';
    assert forall i | 0 <= i < |a| :: s[i] == a[i] && a[i] in a;
    assert forall i | 0 <= i < |c| :: t[i] == c[i] && c[i] in c;
    assert |a| == |c|;
    assert s[..|a|] == a && t[..|c|] == c && s[|a| + 1..] == b && t[|c| + 1..] == d;
  }

  lemma SamePrefix(p: string, a: string, b: string, c: string, d: string)
    requires p + a + "-" + b == p + c + "-" + d
    ensures a + "-" + b == c + "-" + d
  {
    assert (p + a + "-" + b)[|p|..] == a + "-" + b && (p + c + "-" + d)[|p|..] == c + "-" + d;
  }

  /** Different variables never share a secret. */
  lemma SecretNameInjective(i1: InstanceId, n1: VariableName, i2: InstanceId, n2: VariableName)
    requires SecretName(i1, n1) == SecretName(i2, n2)
    ensures i1 == i2 && n1 == n2
  {
    NoDash(i1);
    NoDash(i2);
    var a, b, c, d := Base64Url.Encode(i1), Base64Url.Encode(n1), Base64Url.Encode(i2), Base64Url.Encode(n2);
    SamePrefix("provider-env-", a, b, c, d);
    SplitAtDash(a, b, c, d);
    Base64Url.EncodeInjective(i1, i2);
    Base64Url.EncodeInjective(n1, n2);
  }
}
