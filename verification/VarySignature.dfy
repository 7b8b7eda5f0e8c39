/** Header lookup and the Vary signature of src/cache.rs.

    A header map is the sequence of its (lower-case name, value) pairs; names and values
    are byte strings.  A signature is the string under which one variant of a cached
    response is filed. */
module VarySignature {
  import opened Common

  type Headers = seq<(string, string)>

  const NUL := '\0'

  function LowerChar(c: char): char {
    if 'A' <= c <= 'Z' then (c as int + 32) as char else c
  }

  function Lower(s: string): string {
    seq(|s|, i requires 0 <= i < |s| => LowerChar(s[i]))
  }

  /** `HeaderMap::get`: the first value under a name. */
  function Lookup(h: Headers, name: string): Option<string> {
    if h == [] then None
    else if h[0].0 == name then Some(h[0].1)
    else Lookup(h[1..], name)
  }

  /** `HeaderValue::to_str` succeeds exactly on visible ASCII and tab. */
  predicate Visible(v: string) {
    forall c | c in v :: c == '\t' || ' ' <= c <= '~'
  }

  /** The value a request shows for one Vary name; absent and unreadable count as empty. */
  function VaryValue(req: Headers, name: string): (v: string)
    ensures NUL !in v
  {
    match Lookup(req, Lower(name))
    case Some(v) => if Visible(v) then v else ""
    case None => ""
  }

  /** Only the 26 capital letters of ASCII have another lower-case form. */
  lemma LowerChars(c: char)
    ensures var i := c as int - 'A' as int;
            if 0 <= i < 26 then
              "ABCDEFGHIJKLMNOPQRSTUVWXYZ"[i] == c && LowerChar(c) == "abcdefghijklmnopqrstuvwxyz"[i]
            else LowerChar(c) == c
  {
  }

  lemma VisibleMeaning(v: string)
    ensures Visible(v) <==> forall k | 0 <= k < |v| :: v[k] as int == 9 || 32 <= v[k] as int <= 126
  {
    if Visible(v) {
      forall k | 0 <= k < |v| ensures v[k] as int == 9 || 32 <= v[k] as int <= 126 {
        assert v[k] in v;
      }
    }
  }

  lemma {:induction false} LookupFirst(h: Headers, name: string, i: nat)
    requires i < |h| && h[i].0 == name && forall k | 0 <= k < i :: h[k].0 != name
    ensures Lookup(h, name) == Some(h[i].1)
  {
    if i > 0 {
      LookupFirst(h[1..], name, i - 1);
    }
  }

  lemma {:induction false} LookupMissing(h: Headers, name: string)
    ensures Lookup(h, name).None? <==> forall i | 0 <= i < |h| :: h[i].0 != name
  {
    if h != [] {
      LookupMissing(h[1..], name);
      if Lookup(h, name).None? {
        forall i | 0 <= i < |h| ensures h[i].0 != name {
          assert i > 0 ==> h[1..][i - 1] == h[i];
        }
      } else if h[0].0 != name {
        var i :| 0 <= i < |h[1..]| && h[1..][i].0 == name;
        assert h[i + 1].0 == name;
      }
    }
  }

  /** What a request shows for a name: the value of the first header with that name in lower case,
      if all of it is tab or printable ASCII, and nothing otherwise. */
  lemma VaryValueMeaning(req: Headers, name: string)
    ensures (forall i | 0 <= i < |req| :: req[i].0 != Lower(name)) ==> VaryValue(req, name) == ""
    ensures forall i | 0 <= i < |req| && req[i].0 == Lower(name) && (forall j | 0 <= j < i :: req[j].0 != Lower(name)) ::
              VaryValue(req, name) ==
              if forall k | 0 <= k < |req[i].1| :: req[i].1[k] as int == 9 || 32 <= req[i].1[k] as int <= 126
              then req[i].1 else ""
  {
    LookupMissing(req, Lower(name));
    forall i | 0 <= i < |req| && req[i].0 == Lower(name) && (forall j | 0 <= j < i :: req[j].0 != Lower(name))
      ensures VaryValue(req, name) ==
              if forall k | 0 <= k < |req[i].1| :: req[i].1[k] as int == 9 || 32 <= req[i].1[k] as int <= 126
              then req[i].1 else ""
    {
      LookupFirst(req, Lower(name), i);
      VisibleMeaning(req[i].1);
    }
  }

  /** The values a request shows for a Vary list: the second half of the secondary cache
      key of section 4.1 of RFC 9111. */
  function VaryValues(req: Headers, names: seq<string>): (vs: seq<string>)
    ensures |vs| == |names|
    ensures forall i | 0 <= i < |names| :: vs[i] == VaryValue(req, names[i])
  {
    seq(|names|, i requires 0 <= i < |names| => VaryValue(req, names[i]))
  }

  /** `name=value\0` for each pair in order. */
  function Encode(names: seq<string>, values: seq<string>): string
    requires |names| == |values|
  {
    if names == [] then ""
    else names[0] + "=" + values[0] + [NUL] + Encode(names[1..], values[1..])
  }

  function Signature(req: Headers, names: seq<string>): string {
    Encode(names, VaryValues(req, names))
  }

  lemma {:induction false} EncodeSnoc(names: seq<string>, values: seq<string>, n: string, v: string)
    requires |names| == |values|
    ensures Encode(names + [n], values + [v]) == Encode(names, values) + (n + "=" + v + [NUL])
  {
    var last := n + "=" + v + [NUL];
    if names == [] {
      assert Encode([n][1..], [v][1..]) == "";
      assert last + "" == "" + last;
    } else {
      EncodeSnoc(names[1..], values[1..], n, v);
      assert (names + [n])[1..] == names[1..] + [n];
      assert (values + [v])[1..] == values[1..] + [v];
      var first, rest := names[0] + "=" + values[0] + [NUL], Encode(names[1..], values[1..]);
      assert Encode(names + [n], values + [v]) == first + (rest + last);
      assert Encode(names, values) == first + rest;
    }
  }

  /** `build_signature`: the loop over the Vary names renders the signature. */
  method BuildSignature(req: Headers, names: seq<string>) returns (out: string)
    ensures out == Signature(req, names)
  {
    if names == [] {
      return "";
    }
    out := "";
    for i := 0 to |names|
      invariant out == Signature(req, names[..i])
    {
      var v := VaryValue(req, names[i]);
      EncodeSnoc(names[..i], VaryValues(req, names[..i]), names[i], v);
      assert names[..i + 1] == names[..i] + [names[i]];
      assert VaryValues(req, names[..i + 1]) == VaryValues(req, names[..i]) + [v];
      out := out + names[i];
      out := out + "=";
      out := out + v;
      out := out + [NUL];
    }
    assert names[..|names|] == names;
  }

  /** A NUL-terminated field with no NUL inside can be read back from the front of a string. */
  lemma {:induction false} FieldInjective(a: string, b: string, s: string, t: string)
    requires NUL !in a && NUL !in b
    requires a + [NUL] + s == b + [NUL] + t
    ensures a == b && s == t
  {
    var x, y := a + [NUL] + s, b + [NUL] + t;
    assert forall i | 0 <= i < |a| :: x[i] == a[i] && x[i] != NUL;
    assert forall i | 0 <= i < |b| :: y[i] == b[i] && y[i] != NUL;
    assert x[|a|] == NUL && y[|b|] == NUL;
    assert a == x[..|a|] && b == y[..|b|];
    assert s == x[|a| + 1..] && t == y[|b| + 1..];
  }

  lemma {:induction false} EncodeInjective(names: seq<string>, vs: seq<string>, ws: seq<string>)
    requires |names| == |vs| == |ws|
    requires forall i | 0 <= i < |vs| :: NUL !in vs[i] && NUL !in ws[i]
    requires Encode(names, vs) == Encode(names, ws)
    ensures vs == ws
  {
    if names != [] {
      var head := names[0] + "=";
      var s, t := Encode(names[1..], vs[1..]), Encode(names[1..], ws[1..]);
      assert Encode(names, vs) == head + (vs[0] + [NUL] + s);
      assert Encode(names, ws) == head + (ws[0] + [NUL] + t);
      assert (head + (vs[0] + [NUL] + s))[|head|..] == vs[0] + [NUL] + s;
      assert (head + (ws[0] + [NUL] + t))[|head|..] == ws[0] + [NUL] + t;
      FieldInjective(vs[0], ws[0], s, t);
      EncodeInjective(names[1..], vs[1..], ws[1..]);
      assert vs == [vs[0]] + vs[1..] && ws == [ws[0]] + ws[1..];
    }
  }

  /** Two requests have one signature over a Vary list exactly when they show the same
      value for every header in it. */
  lemma SignatureInjective(r1: Headers, r2: Headers, names: seq<string>)
    ensures Signature(r1, names) == Signature(r2, names)
       <==> forall i | 0 <= i < |names| :: VaryValue(r1, names[i]) == VaryValue(r2, names[i])
  {
    if Signature(r1, names) == Signature(r2, names) {
      EncodeInjective(names, VaryValues(r1, names), VaryValues(r2, names));
    }
    if forall i | 0 <= i < |names| :: VaryValue(r1, names[i]) == VaryValue(r2, names[i]) {
      assert VaryValues(r1, names) == VaryValues(r2, names);
    }
  }

  // ----- Signatures of different Vary lists -----

  /** What a signature holds of each header: its fields between the NULs. */
  ghost function Fields(names: seq<string>, values: seq<string>): (fs: seq<string>)
    requires |names| == |values|
    ensures |fs| == |names| && forall i | 0 <= i < |fs| :: fs[i] == names[i] + "=" + values[i]
  {
    seq(|names|, i requires 0 <= i < |names| => names[i] + "=" + values[i])
  }

  /** No name contains the character. */
  ghost predicate Lacks(c: char, names: seq<string>) {
    forall i | 0 <= i < |names| :: c !in names[i]
  }

  lemma FieldsCons(names: seq<string>, values: seq<string>)
    requires |names| == |values| && names != []
    ensures Fields(names, values) == [names[0] + "=" + values[0]] + Fields(names[1..], values[1..])
    ensures Encode(names, values) == (names[0] + "=" + values[0]) + [NUL] + Encode(names[1..], values[1..])
  {
  }

  lemma ConsEqual(a: string, b: string, s: seq<string>, t: seq<string>)
    ensures [a] + s == [b] + t <==> a == b && s == t
  {
    if [a] + s == [b] + t {
      assert ([a] + s)[0] == a && ([b] + t)[0] == b;
      assert ([a] + s)[1..] == s && ([b] + t)[1..] == t;
    }
  }

  lemma {:induction false} EncodeFields(n1: seq<string>, v1: seq<string>, n2: seq<string>, v2: seq<string>)
    requires |n1| == |v1| && |n2| == |v2| && Lacks(NUL, n1 + v1) && Lacks(NUL, n2 + v2)
    ensures Encode(n1, v1) == Encode(n2, v2) <==> Fields(n1, v1) == Fields(n2, v2)
    decreases n1
  {
    if n1 != [] && n2 != [] {
      var f1, f2 := n1[0] + "=" + v1[0], n2[0] + "=" + v2[0];
      NulFreeParts(n1, v1);
      NulFreeParts(n2, v2);
      FieldsCons(n1, v1);
      FieldsCons(n2, v2);
      EncodeFields(n1[1..], v1[1..], n2[1..], v2[1..]);
      if Encode(n1, v1) == Encode(n2, v2) {
        FieldInjective(f1, f2, Encode(n1[1..], v1[1..]), Encode(n2[1..], v2[1..]));
      }
      ConsEqual(f1, f2, Fields(n1[1..], v1[1..]), Fields(n2[1..], v2[1..]));
    }
  }

  lemma NulFreeParts(names: seq<string>, values: seq<string>)
    requires |names| == |values| && names != [] && Lacks(NUL, names + values)
    ensures NUL !in names[0] + "=" + values[0]
    ensures Lacks(NUL, names[1..] + values[1..])
  {
    var all, rest := names + values, names[1..] + values[1..];
    assert names[0] == all[0] && values[0] == all[|names|];
    forall i | 0 <= i < |rest| ensures NUL !in rest[i] {
      assert rest[i] == all[if i < |names| - 1 then i + 1 else i + 2];
    }
  }

  /** Two lists of names without NUL have one signature exactly when they render the same fields:
      a name may run on into its value at a '='. */
  lemma SameSignatureIffSameFields(r1: Headers, n1: seq<string>, r2: Headers, n2: seq<string>)
    requires Lacks(NUL, n1) && Lacks(NUL, n2)
    ensures Signature(r1, n1) == Signature(r2, n2)
       <==> Fields(n1, VaryValues(r1, n1)) == Fields(n2, VaryValues(r2, n2))
  {
    EncodeFields(n1, VaryValues(r1, n1), n2, VaryValues(r2, n2));
  }

  /** Without '=' in the name, a field splits in one way. */
  lemma SplitsOnce(n1: string, v1: string, n2: string, v2: string)
    requires '=' !in n1 && '=' !in n2 && n1 + "=" + v1 == n2 + "=" + v2
    ensures n1 == n2 && v1 == v2
  {
    var x, y := n1 + "=" + v1, n2 + "=" + v2;
    assert forall i | 0 <= i < |n1| :: x[i] == n1[i] && x[i] != '=';
    assert forall i | 0 <= i < |n2| :: y[i] == n2[i] && y[i] != '=';
    assert x[|n1|] == '=' && y[|n2|] == '=';
    assert n1 == x[..|n1|] && n2 == y[..|n2|];
    assert v1 == x[|n1| + 1..] && v2 == y[|n2| + 1..];
  }

  /** Vary lists whose names contain neither '=' nor NUL are separated: two requests have one
      signature exactly when list and values are the same. */
  lemma SignatureSeparates(r1: Headers, n1: seq<string>, r2: Headers, n2: seq<string>)
    requires Lacks(NUL, n1) && Lacks(NUL, n2) && Lacks('=', n1) && Lacks('=', n2)
    ensures Signature(r1, n1) == Signature(r2, n2)
       <==> n1 == n2 && VaryValues(r1, n1) == VaryValues(r2, n2)
  {
    var v1, v2 := VaryValues(r1, n1), VaryValues(r2, n2);
    SameSignatureIffSameFields(r1, n1, r2, n2);
    if Fields(n1, v1) == Fields(n2, v2) {
      forall i | 0 <= i < |n1| ensures n1[i] == n2[i] && v1[i] == v2[i] {
        assert Fields(n1, v1)[i] == Fields(n2, v2)[i];
        SplitsOnce(n1[i], v1[i], n2[i], v2[i]);
      }
    }
  }

  /** Any name with a '=' does collide, with its part before the '=': a request without the header
      of the long name has the signature of a request that shows the rest for the short one. */
  lemma SignatureCollision(name: string, rest: string)
    requires Visible(rest)
    ensures Signature([], [name + "=" + rest]) == Signature([(Lower(name), rest + "=")], [name])
  {
    var long, req := name + "=" + rest, [(Lower(name), rest + "=")];
    assert VaryValue([], long) == "" && VaryValue(req, name) == rest + "=";
    assert VaryValues([], [long]) == [""] && VaryValues(req, [name]) == [rest + "="];
    OneField(long, "");
    OneField(name, rest + "=");
    assert long + "=" + "" == name + "=" + (rest + "=");
  }

  lemma OneField(name: string, value: string)
    ensures Encode([name], [value]) == name + "=" + value + [NUL]
  {
    assert Encode([name][1..], [value][1..]) == "";
  }
}
