/**
 What both policy caches file an entry under: the two generations current when
 it was written, the resource type and the action.
 */
module CacheKeys {
  import opened JsText
  import opened CanonicalForm

  datatype Key = Key(resourceType: Text, action: Text)

  datatype Cached = Cached(value: Text, policyVersion: Text, cachedAt: Text)

  /** `global:resource`, then the type and the action behind a separator each. */
  function Tagged(g: nat, r: nat, separator: CodeUnit, key: Key): Text {
    Decimal(g) + [COLON] + (Decimal(r) + [separator] + (key.resourceType + [separator] + key.action))
  }

  lemma SplitsOnce(a: Text, rest: Text, b: Text, rest': Text, separator: CodeUnit)
    requires separator !in a && separator !in b
    requires a + [separator] + rest == b + [separator] + rest'
    ensures a == b && rest == rest'
  {
    var s, t := a + [separator] + rest, b + [separator] + rest';
    assert s[..|a|] == a && t[..|b|] == b && s[|a|] == separator && t[|b|] == separator;
    assert s[|a| + 1..] == rest && t[|b| + 1..] == rest';
  }

  /** No type in use is another one followed by the separator. */
  ghost predicate Separable(types: set<Text>, separator: CodeUnit) {
    forall t, u | t in types && u in types :: !(t + [separator] <= u)
  }

  lemma LongerTypeGoesOn(t: Text, a: Text, u: Text, b: Text, separator: CodeUnit)
    requires t + [separator] + a == u + [separator] + b && |t| < |u|
    ensures t + [separator] <= u
  {
    var s := t + [separator] + a;
    assert s[..|t| + 1] == t + [separator];
    assert s == u + [separator] + b;
    assert s[..|u|] == u;
  }

  /** For two types neither of which is the other followed by the separator, a tag determines everything in it. */
  lemma TaggedExact(g: nat, r: nat, key: Key, g': nat, r': nat, key': Key, separator: CodeUnit)
    requires !IsDigit(separator)
    requires !(key.resourceType + [separator] <= key'.resourceType)
    requires !(key'.resourceType + [separator] <= key.resourceType)
    ensures Tagged(g, r, separator, key) == Tagged(g', r', separator, key') <==> g == g' && r == r' && key == key'
  {
    if Tagged(g, r, separator, key) == Tagged(g', r', separator, key') {
      var t, u := key.resourceType, key'.resourceType;
      var rest, rest' := t + [separator] + key.action, u + [separator] + key'.action;
      SplitsOnce(Decimal(g), Decimal(r) + [separator] + rest, Decimal(g'), Decimal(r') + [separator] + rest', COLON);
      SplitsOnce(Decimal(r), rest, Decimal(r'), rest', separator);
      if |t| < |u| {
        LongerTypeGoesOn(t, key.action, u, key'.action, separator);
      } else if |u| < |t| {
        LongerTypeGoesOn(u, key'.action, t, key.action, separator);
      }
      assert rest[..|t|] == t && rest'[..|u|] == u;
      assert rest[|t| + 1..] == key.action && rest'[|u| + 1..] == key'.action;
      DecimalInjective(g, g');
      DecimalInjective(r, r');
    }
  }

  /** The key of the shorter type under which an entry of the longer one is filed. */
  function Confused(t: Text, u: Text, separator: CodeUnit): Key
    requires t + [separator] <= u
  {
    Key(t, u[|t| + 1..] + [separator])
  }

  /** Otherwise two keys of different types have one tag. */
  lemma ConfusedTags(g: nat, r: nat, t: Text, u: Text, separator: CodeUnit)
    requires t + [separator] <= u
    ensures Tagged(g, r, separator, Confused(t, u, separator)) == Tagged(g, r, separator, Key(u, []))
    ensures t != u
  {
    hide Decimal;
    var rest := u[|t| + 1..];
    assert u == t + [separator] + rest;
    assert t + [separator] + (rest + [separator]) == u + [separator] + [];
  }
}
