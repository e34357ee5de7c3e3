/** The distinguished-name algebra of the boundary layer: taking a DN of the
    form `ATTR=value,ATTR=value,...` apart and building new ones, as plain
    text operations without component escaping (src/adldap/ad_utils.cpp). */
module Dn {
  import opened Text

  /** The object class that gets an `OU=` naming attribute; every other
      class gets `CN=`. */
  const ClassOu: string := "organizationalUnit"

  /** The first comma-separated component, attribute prefix included. */
  function DnGetRdn(dn: string): (rdn: string)
    ensures ',' !in rdn
    ensures rdn <= dn
    ensures |rdn| < |dn| ==> dn[|rdn|] == ','
  {
    Split(dn, ',')[0]
  }

  /** The naming attribute of a component: its text up to and including the
      first `=`, or nothing when it holds no `=`. */
  function RdnPrefix(rdn: string): (prefix: string)
    ensures prefix <= rdn
    ensures '=' in rdn ==> |prefix| > 0 && prefix[|prefix| - 1] == '=' && '=' !in prefix[..|prefix| - 1]
    ensures '=' !in rdn ==> prefix == ""
  {
    Left(rdn, IndexOf(rdn, '=') + 1)
  }

  /** The value of the first component: from just after the first `=` to
      just before the first `,`.  Qt's `mid` with a negative length runs to
      the end, so a DN without a comma gives everything after its first
      `=`, and so does one whose first `=` lies beyond its first comma. */
  function DnGetName(dn: string): (name: string)
    ensures '=' in DnGetRdn(dn) ==> DnGetRdn(dn) == RdnPrefix(DnGetRdn(dn)) + name
    ensures '=' !in dn ==> name == DnGetRdn(dn)
  {
    var eq := IndexOf(dn, '=');
    var comma := IndexOf(dn, ',');
    NameShape(dn, eq, comma);
    Mid(dn, eq + 1, comma - (eq + 1))
  }

  /** The shapes of the value `DnGetName` cuts out. */
  lemma NameShape(dn: string, eq: int, comma: int)
    requires eq == IndexOf(dn, '=') && comma == IndexOf(dn, ',')
    ensures '=' in DnGetRdn(dn) ==> DnGetRdn(dn) == RdnPrefix(DnGetRdn(dn)) + Mid(dn, eq + 1, comma - (eq + 1))
    ensures '=' !in dn ==> Mid(dn, eq + 1, comma - (eq + 1)) == DnGetRdn(dn)
  {
    var rdn := DnGetRdn(dn);
    RdnPositions(dn);
    var end := if ',' in dn then |rdn| else |dn|;
    assert rdn == dn[..end];
    if '=' in rdn {
      NameInRdn(dn, rdn, eq, comma, end);
    } else if '=' !in dn {
      NameWithoutEquals(dn, rdn, eq, comma, end);
    }
  }

  /** When the first `=` lies past the first comma, `mid` runs from just
      after that `=` to the end of the DN. */
  lemma NameAfterFirstEquals(dn: string)
    requires '=' in dn && '=' !in DnGetRdn(dn)
    ensures DnGetName(dn) == dn[IndexOf(dn, '=') + 1..]
  {
    var eq, comma := IndexOf(dn, '='), IndexOf(dn, ',');
    CommaBeforeEquals(dn);
    calc {
      DnGetName(dn);
      Mid(dn, eq + 1, comma - (eq + 1));
      { NameBeyondRdn(dn, eq, comma); }
      dn[eq + 1..];
    }
  }

  lemma CommaBeforeEquals(dn: string)
    requires '=' in dn && '=' !in DnGetRdn(dn)
    ensures IndexOf(dn, ',') < IndexOf(dn, '=')
  {
    RdnPositions(dn);
  }

  lemma NameBeyondRdn(dn: string, eq: int, comma: int)
    requires 0 <= eq < |dn| && comma < eq
    ensures Mid(dn, eq + 1, comma - (eq + 1)) == dn[eq + 1..]
  {
  }

  lemma NameInRdn(dn: string, rdn: string, eq: int, comma: int, end: int)
    requires 0 <= end <= |dn| && rdn == dn[..end]
    requires comma == end || (comma == -1 && end == |dn|)
    requires '=' in rdn && eq == IndexOf(rdn, '=')
    ensures rdn == RdnPrefix(rdn) + Mid(dn, eq + 1, comma - (eq + 1))
  {
    MidUpTo(dn, eq + 1, comma, end);
    PrefixAndRest(rdn, dn, eq + 1, end);
  }

  /** The cut `Mid` makes when the comma index is `end` or there is none. */
  lemma MidUpTo(dn: string, e: int, comma: int, end: int)
    requires 0 <= e <= end <= |dn|
    requires comma == end || (comma == -1 && end == |dn|)
    ensures Mid(dn, e, comma - e) == dn[e..end]
  {
  }

  lemma PrefixAndRest(rdn: string, dn: string, e: int, end: int)
    requires 0 <= e <= |rdn| && end == |rdn| <= |dn|
    requires rdn == dn[..end]
    requires '=' in rdn && e == IndexOf(rdn, '=') + 1
    ensures rdn == RdnPrefix(rdn) + dn[e..end]
  {
    assert RdnPrefix(rdn) == Left(rdn, e);
    LeftAndRest(rdn, dn, e, end);
  }

  lemma LeftAndRest(rdn: string, dn: string, e: int, end: int)
    requires 0 <= e <= |rdn| && end == |rdn| <= |dn|
    requires rdn == dn[..end]
    ensures rdn == Left(rdn, e) + dn[e..end]
  {
    calc {
      Left(rdn, e) + dn[e..end];
      { LeftPrefix(rdn, e); }
      rdn[..e] + dn[e..end];
      { assert dn[e..end] == rdn[e..]; }
      rdn[..e] + rdn[e..];
      { assert rdn == rdn[..e] + rdn[e..]; }
      rdn;
    }
  }

  lemma NameWithoutEquals(dn: string, rdn: string, eq: int, comma: int, end: int)
    requires 0 <= end <= |dn| && rdn == dn[..end]
    requires comma == end || (comma == -1 && end == |dn|)
    requires eq == -1
    ensures Mid(dn, eq + 1, comma - (eq + 1)) == rdn
  {
    MidUpTo(dn, 0, comma, end);
  }

  /** Where the first `,` and the first `=` of a DN sit relative to its
      first component. */
  lemma {:induction false} RdnPositions(dn: string)
    ensures IndexOf(dn, ',') == (if ',' in dn then |DnGetRdn(dn)| else -1)
    ensures ',' !in dn ==> DnGetRdn(dn) == dn
    ensures '=' in DnGetRdn(dn) ==> IndexOf(dn, '=') == IndexOf(DnGetRdn(dn), '=')
    ensures '=' in dn && '=' !in DnGetRdn(dn) ==> IndexOf(dn, '=') > |DnGetRdn(dn)|
  {
    var rdn := DnGetRdn(dn);
    if ',' in dn {
      assert |rdn| < |dn|;
      assert dn[..|rdn|] == rdn;
      IndexOfUnique(dn, ',', |rdn|);
    }
    if '=' in rdn {
      var k := IndexOf(rdn, '=');
      assert dn[..k] == rdn[..k];
      IndexOfUnique(dn, '=', k);
    } else if '=' in dn {
      var k := IndexOf(dn, '=');
      if k <= |rdn| {
        assert false;
      }
    }
  }

  /** Everything after the first comma; with no comma, `indexOf` gives -1
      and the whole DN comes back. */
  function DnGetParent(dn: string): (parent: string)
    ensures ',' in dn ==> dn == DnGetRdn(dn) + "," + parent
    ensures ',' !in dn ==> parent == dn
  {
    Mid(dn, IndexOf(dn, ',') + 1, -1)
  }

  /** Replace the value of the first component by `newName`: split on `,`,
      rebuild the first part from its naming attribute, join back. */
  function DnRename(dn: string, newName: string): (r: string)
    ensures r == RdnPrefix(DnGetRdn(dn)) + newName + dn[|DnGetRdn(dn)|..]
  {
    var exploded := Split(dn, ',');
    var oldRdn := exploded[0];
    var prefix := Left(oldRdn, IndexOf(oldRdn, '=') + 1);
    var renamed := Join([prefix + newName] + exploded[1..], ",");
    RenameShape(dn, prefix + newName);
    renamed
  }

  /** Replacing the first part of a split and joining again keeps the text
      from the first comma on. */
  lemma {:induction false} RenameShape(dn: string, first: string)
    ensures Join([first] + Split(dn, ',')[1..], ",") == first + dn[|Split(dn, ',')[0]|..]
  {
    if ',' in dn {
      var i := IndexOf(dn, ',');
      var p, tail := dn[..i], dn[i + 1..];
      AroundFirst(dn, ',');
      RenameShapeAt(p, tail, first);
    } else {
      assert Split(dn, ',') == [dn];
      assert [first] + Split(dn, ',')[1..] == [first];
    }
  }

  lemma {:induction false} RenameShapeAt(p: string, tail: string, first: string)
    requires ',' !in p
    ensures var dn := p + [','] + tail;
      Join([first] + Split(dn, ',')[1..], ",") == first + dn[|Split(dn, ',')[0]|..]
  {
    var dn := p + [','] + tail;
    SplitAtFirst(p, tail, ',');
    var rest := Split(tail, ',');
    assert Split(dn, ',')[1..] == rest;
    JoinCons(first, rest, ",");
    JoinSplit(tail, ',');
    assert dn[|p|..] == "," + tail;
  }

  /** The DN of the same object under `newParent`. */
  function DnMove(dn: string, newParent: string): (r: string)
    ensures ',' in r
    ensures DnGetRdn(r) == DnGetRdn(dn)
    ensures DnGetParent(r) == newParent
  {
    var moved := DnGetRdn(dn) + "," + newParent;
    assert moved[..|DnGetRdn(dn)|] == DnGetRdn(dn);
    IndexOfUnique(moved, ',', |DnGetRdn(dn)|);
    moved
  }

  /** The DN of a new object called `name` of class `objectClass` created
      under `parent`. */
  function DnFromNameAndParent(name: string, parent: string, objectClass: string): (r: string)
    ensures ',' in r
    ensures |r| >= 3 && (r[..3] == "OU=" <==> objectClass == ClassOu)
    ensures objectClass != ClassOu ==> r[..3] == "CN="
    ensures ',' !in name ==> DnGetName(r) == name && DnGetParent(r) == parent
  {
    var attribute := if objectClass == ClassOu then "OU" else "CN";
    var built := attribute + "=" + name + "," + parent;
    var prefix := attribute + "=";
    assert built[..3] == prefix;
    assert prefix[..2] == attribute && '=' !in attribute && ',' !in prefix;
    assert "CN="[0] != "OU="[0];
    if ',' in name then built
    else
      BuiltDnParts(prefix, name, parent);
      built
  }

  /** A DN assembled from a naming attribute, a comma-free value and a
      parent decomposes into exactly those pieces. */
  lemma {:induction false} BuiltDnParts(prefix: string, name: string, parent: string)
    requires |prefix| > 0 && prefix[|prefix| - 1] == '=' && '=' !in prefix[..|prefix| - 1]
    requires ',' !in prefix && ',' !in name
    ensures DnGetRdn(prefix + name + "," + parent) == prefix + name
    ensures DnGetName(prefix + name + "," + parent) == name
    ensures DnGetParent(prefix + name + "," + parent) == parent
  {
    var rdn := prefix + name;
    var dn := rdn + "," + parent;
    assert dn[..|rdn|] == rdn;
    IndexOfUnique(dn, ',', |rdn|);
    assert rdn[..|prefix| - 1] == prefix[..|prefix| - 1];
    IndexOfUnique(rdn, '=', |prefix| - 1);
    assert rdn[..|prefix|] == prefix;
  }

  /** The domain DN: lower-case the domain, put `DC=` in front, and turn
      every `.` into `,DC=`. */
  function DomainToDomainDn(domain: string): (r: string)
    ensures '.' !in r
    ensures |r| >= 3 && r[..3] == "DC="
  {
    var dn := ReplaceAll("DC=" + AsciiLower(domain), '.', ",DC=");
    ReplaceAllRemoves("DC=" + AsciiLower(domain), '.', ",DC=");
    DomainDnIsJoin(domain);
    dn
  }

  /** The domain DN is `DC=` followed by the lower-cased labels joined with
      `,DC=`. */
  lemma {:induction false} DomainDnIsJoin(domain: string)
    ensures ReplaceAll("DC=" + AsciiLower(domain), '.', ",DC=")
         == "DC=" + Join(Split(AsciiLower(domain), '.'), ",DC=")
  {
    var lower := AsciiLower(domain);
    ReplaceAllConcat("DC=", lower, '.', ",DC=");
    ReplaceAllNoMatch("DC=", '.', ",DC=");
    ReplaceAllIsJoinOfSplit(lower, '.', ",DC=");
  }

  /** The documented example: "DOMAIN.COM" gives "DC=domain,DC=com". */
  lemma DomainDnExample(d: string)
    requires d == "DOMAIN.COM"
    ensures DomainToDomainDn(d) == "DC=domain,DC=com"
  {
    var lower := AsciiLower(d);
    assert lower == "domain" + ['.'] + "com";
    calc {
      DomainToDomainDn(d);
      { DomainDnIsJoin(d); }
      "DC=" + Join(Split(lower, '.'), ",DC=");
      { SplitAtFirst("domain", "com", '.'); assert Split("com", '.') == ["com"]; }
      "DC=" + Join(["domain"] + ["com"], ",DC=");
      { assert ["domain"] + ["com"] == ["domain", "com"]; }
      "DC=" + ("domain" + ",DC=" + "com");
      "DC=domain,DC=com";
    }
  }

  /** `DC=` in front of each label. */
  function DcComponents(labels: seq<string>): (comps: seq<string>)
    ensures |comps| == |labels|
    ensures forall i :: 0 <= i < |labels| ==> comps[i] == "DC=" + labels[i]
  {
    if |labels| == 0 then [] else ["DC=" + labels[0]] + DcComponents(labels[1..])
  }

  /** Splitting `DC=l0,DC=l1,...` on commas gives one `DC=` component per
      comma-free label. */
  lemma {:induction false} SplitDcJoin(labels: seq<string>)
    requires |labels| >= 1
    requires forall i :: 0 <= i < |labels| ==> ',' !in labels[i]
    ensures Split("DC=" + Join(labels, ",DC="), ',') == DcComponents(labels)
    decreases |labels|
  {
    if |labels| == 1 {
      assert ',' !in "DC=" + labels[0];
    } else {
      var rest := Join(labels[1..], ",DC=");
      assert "DC=" + Join(labels, ",DC=") == ("DC=" + labels[0]) + [','] + ("DC=" + rest);
      assert ',' !in "DC=" + labels[0];
      SplitAtFirst("DC=" + labels[0], "DC=" + rest, ',');
      SplitDcJoin(labels[1..]);
    }
  }

  /** A domain of k+1 dot-separated labels gives k+1 comma-separated
      components, `DC=` in front of each lower-cased label, in order. */
  lemma {:induction false} DomainDnComponents(domain: string)
    requires ',' !in domain
    ensures Split(DomainToDomainDn(domain), ',') == DcComponents(Split(AsciiLower(domain), '.'))
    ensures |Split(DomainToDomainDn(domain), ',')| == Count(domain, '.') + 1
    ensures forall i :: 0 <= i < |Split(AsciiLower(domain), '.')| ==> IsLowerCase(Split(AsciiLower(domain), '.')[i])
  {
    var lower := AsciiLower(domain);
    var labels := Split(lower, '.');
    assert ',' !in lower by {
      forall i | 0 <= i < |lower| ensures lower[i] != ',' {
        assert lower[i] == LowerChar(domain[i]);
      }
    }
    SplitPartsFrom(lower, '.');
    forall i | 0 <= i < |labels|
      ensures ',' !in labels[i] && IsLowerCase(labels[i])
    {
      forall j | 0 <= j < |labels[i]| ensures labels[i][j] != ',' && !('A' <= labels[i][j] <= 'Z') {
        assert labels[i][j] in lower;
      }
    }
    DomainDnIsJoin(domain);
    SplitDcJoin(labels);
    SplitLength(lower, '.');
    AsciiLowerKeepsCount(domain, '.');
  }

  // ---------------------------------------------------------------------
  // How the operations compose

  /** Moving keeps the name of the object. */
  lemma {:induction false} MoveKeepsName(dn: string, newParent: string)
    requires '=' in DnGetRdn(dn)
    ensures DnGetName(DnMove(dn, newParent)) == DnGetName(dn)
  {
    var rdn := DnGetRdn(dn);
    var moved := DnMove(dn, newParent);
    assert rdn == RdnPrefix(rdn) + DnGetName(moved);
    assert rdn == RdnPrefix(rdn) + DnGetName(dn);
    assert DnGetName(moved) == rdn[|RdnPrefix(rdn)|..];
  }

  /** Moving an object under the parent it already has gives its DN back. */
  lemma {:induction false} MoveToOwnParent(dn: string)
    requires ',' in dn
    ensures DnMove(dn, DnGetParent(dn)) == dn
  {
  }

  /** Only the last of two moves counts. */
  lemma {:induction false} MoveTwice(dn: string, p: string, q: string)
    ensures DnMove(DnMove(dn, p), q) == DnMove(dn, q)
  {
  }

  /** Renaming replaces the first component by the naming attribute and the
      new name, and leaves every later component unchanged and in order. */
  lemma {:induction false} RenameComponents(dn: string, newName: string)
    requires ',' !in newName
    ensures Split(DnRename(dn, newName), ',') == [RdnPrefix(DnGetRdn(dn)) + newName] + Split(dn, ',')[1..]
    ensures DnGetRdn(DnRename(dn, newName)) == RdnPrefix(DnGetRdn(dn)) + newName
  {
    if ',' in dn {
      RenameComponentsNested(dn, newName);
    } else {
      RenameComponentsSingle(dn, newName);
    }
  }

  lemma {:induction false} RenameComponentsNested(dn: string, newName: string)
    requires ',' !in newName && ',' in dn
    ensures Split(DnRename(dn, newName), ',') == [RdnPrefix(DnGetRdn(dn)) + newName] + Split(dn, ',')[1..]
  {
    var rdn := DnGetRdn(dn);
    var first := RdnPrefix(rdn) + newName;
    var parent := DnGetParent(dn);
    assert dn == rdn + [','] + parent;
    assert dn[|rdn|..] == [','] + parent;
    assert DnRename(dn, newName) == first + [','] + parent;
    SplitAtFirst(first, parent, ',');
    SplitAtFirst(rdn, parent, ',');
  }

  lemma {:induction false} RenameComponentsSingle(dn: string, newName: string)
    requires ',' !in newName && ',' !in dn
    ensures Split(DnRename(dn, newName), ',') == [RdnPrefix(DnGetRdn(dn)) + newName] + Split(dn, ',')[1..]
  {
    var first := RdnPrefix(DnGetRdn(dn)) + newName;
    RdnPositions(dn);
    assert DnRename(dn, newName) == first;
    assert Split(dn, ',') == [dn];
    assert ',' !in first;
  }

  /** Renaming keeps the parent, and the new name is what `DnGetName` then
      reads back. */
  lemma {:induction false} RenameKeepsParent(dn: string, newName: string)
    requires ',' !in newName
    requires ',' in dn
    ensures DnGetParent(DnRename(dn, newName)) == DnGetParent(dn)
  {
    var rdn := DnGetRdn(dn);
    var first := RdnPrefix(rdn) + newName;
    var parent := DnGetParent(dn);
    assert dn[|rdn|..] == [','] + parent;
    assert DnRename(dn, newName) == first + "," + parent;
    RenameComponents(dn, newName);
  }

  lemma {:induction false} RenameSetsName(dn: string, newName: string)
    requires ',' !in newName
    requires '=' in DnGetRdn(dn)
    ensures DnGetName(DnRename(dn, newName)) == newName
  {
    var rdn := DnGetRdn(dn);
    var prefix := RdnPrefix(rdn);
    RenameComponents(dn, newName);
    var renamed := DnRename(dn, newName);
    assert DnGetRdn(renamed) == prefix + newName;
    assert (prefix + newName)[..|prefix|] == prefix;
    IndexOfUnique(prefix + newName, '=', |prefix| - 1);
    assert RdnPrefix(prefix + newName) == prefix;
  }

  /** Renaming an object to the name it has gives its DN back. */
  lemma {:induction false} RenameToOwnName(dn: string)
    requires '=' in DnGetRdn(dn)
    ensures DnRename(dn, DnGetName(dn)) == dn
  {
    var rdn := DnGetRdn(dn);
    assert dn == rdn + dn[|rdn|..];
  }

  /** Renaming and moving commute. */
  lemma {:induction false} RenameMoveCommute(dn: string, newName: string, newParent: string)
    requires ',' !in newName
    ensures DnMove(DnRename(dn, newName), newParent) == DnRename(DnMove(dn, newParent), newName)
  {
    var moved := DnMove(dn, newParent);
    var rdn := DnGetRdn(dn);
    calc {
      DnMove(DnRename(dn, newName), newParent);
      DnGetRdn(DnRename(dn, newName)) + "," + newParent;
      { RenameComponents(dn, newName); }
      RdnPrefix(rdn) + newName + "," + newParent;
      { MovedTail(rdn, newParent); }
      RdnPrefix(rdn) + newName + (rdn + "," + newParent)[|rdn|..];
      { assert moved == rdn + "," + newParent; }
      RdnPrefix(DnGetRdn(moved)) + newName + moved[|DnGetRdn(moved)|..];
      DnRename(moved, newName);
    }
  }

  lemma MovedTail(rdn: string, parent: string)
    ensures (rdn + "," + parent)[|rdn|..] == "," + parent
  {
  }

  /** The worked examples of the C++ comments. */
  lemma {:induction false} NameExample()
    ensures DnGetRdn("CN=foo,CN=bar,DC=domain,DC=com") == "CN=foo"
    ensures DnGetName("CN=foo,CN=bar,DC=domain,DC=com") == "foo"
    ensures DnGetParent("CN=foo,CN=bar,DC=domain,DC=com") == "CN=bar,DC=domain,DC=com"
  {
    var prefix, parent := "CN=", "CN=bar,DC=domain,DC=com";
    assert prefix[..2] == "CN";
    assert prefix + "foo" == "CN=foo";
    assert "CN=foo,CN=bar,DC=domain,DC=com" == "CN=foo" + "," + parent;
    BuiltDnParts(prefix, "foo", parent);
  }

  /** Renaming `ATTR=name,parent` gives `ATTR=newName,parent`: for instance
      `CN=foo,CN=bar,DC=d,DC=c` renamed to `baz` is `CN=baz,CN=bar,DC=d,DC=c`. */
  lemma {:induction false} RenameBuilt(prefix: string, name: string, parent: string, newName: string)
    requires |prefix| > 0 && prefix[|prefix| - 1] == '=' && '=' !in prefix[..|prefix| - 1]
    requires ',' !in prefix && ',' !in name
    ensures DnRename(prefix + name + "," + parent, newName) == prefix + newName + "," + parent
  {
    var dn := prefix + name + "," + parent;
    var rdn := prefix + name;
    calc {
      DnRename(dn, newName);
      RdnPrefix(DnGetRdn(dn)) + newName + dn[|DnGetRdn(dn)|..];
      { BuiltDnParts(prefix, name, parent); }
      RdnPrefix(rdn) + newName + dn[|rdn|..];
      { PrefixOfBuilt(prefix, name); }
      prefix + newName + dn[|rdn|..];
      { assert dn[|rdn|..] == "," + parent; }
      prefix + newName + "," + parent;
    }
  }

  /** The naming attribute of `prefix + name` is `prefix`. */
  lemma PrefixOfBuilt(prefix: string, name: string)
    requires |prefix| > 0 && prefix[|prefix| - 1] == '=' && '=' !in prefix[..|prefix| - 1]
    ensures RdnPrefix(prefix + name) == prefix
  {
    var rdn := prefix + name;
    assert rdn[..|prefix| - 1] == prefix[..|prefix| - 1];
    IndexOfUnique(rdn, '=', |prefix| - 1);
    assert rdn[..|prefix|] == prefix;
  }

  /** Moving `ATTR=name,parent` under `newParent` gives
      `ATTR=name,newParent`: for instance `CN=foo,CN=bar,DC=d,DC=c` moved
      under `OU=x,DC=d,DC=c` is `CN=foo,OU=x,DC=d,DC=c`. */
  lemma {:induction false} MoveBuilt(prefix: string, name: string, parent: string, newParent: string)
    requires |prefix| > 0 && prefix[|prefix| - 1] == '=' && '=' !in prefix[..|prefix| - 1]
    requires ',' !in prefix && ',' !in name
    ensures DnMove(prefix + name + "," + parent, newParent) == prefix + name + "," + newParent
  {
    BuiltDnParts(prefix, name, parent);
  }
}
