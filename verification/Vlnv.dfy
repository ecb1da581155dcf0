/** Vendor, library, name and version: the identifiers by which IPs are found. */
module VlnvTag {
  import opened Text

  const DELIMITER := ':'

  /** An empty field is a wildcard. */
  datatype Vlnv = Vlnv(vendor: string, library: string, name: string, version: string)

  // ------------------------------------------------------------ matching

  predicate FieldMatches(a: string, b: string) {
    a == "" || b == "" || a == b
  }

  /** `operator==` */
  predicate Matches(a: Vlnv, b: Vlnv) {
    && FieldMatches(a.vendor, b.vendor) && FieldMatches(a.library, b.library)
    && FieldMatches(a.name, b.name) && FieldMatches(a.version, b.version)
  }

  /** A tag without wildcards that the pattern stands for. */
  predicate StandsFor(pattern: Vlnv, c: Vlnv) {
    && c.vendor != "" && c.library != "" && c.name != "" && c.version != ""
    && (pattern.vendor == "" || pattern.vendor == c.vendor)
    && (pattern.library == "" || pattern.library == c.library)
    && (pattern.name == "" || pattern.name == c.name)
    && (pattern.version == "" || pattern.version == c.version)
  }

  function Common(a: string, b: string): string {
    if a != "" then a else if b != "" then b else "any"
  }

  /** Two tags compare equal exactly when some concrete tag fits both. */
  lemma MatchesIffOverlap(a: Vlnv, b: Vlnv)
    ensures Matches(a, b) <==> exists c :: StandsFor(a, c) && StandsFor(b, c)
  {
    if Matches(a, b) {
      var c := Vlnv(Common(a.vendor, b.vendor), Common(a.library, b.library),
                    Common(a.name, b.name), Common(a.version, b.version));
      assert StandsFor(a, c) && StandsFor(b, c);
    }
  }

  /** So the comparison is not transitive: a wildcard equals both of two
      different tags. */
  lemma NotTransitive()
    ensures exists a, b, c :: Matches(a, b) && Matches(b, c) && !Matches(a, c)
  {
    var a, b, c := Vlnv("x", "", "", ""), Vlnv("", "", "", ""), Vlnv("y", "", "", "");
    assert Matches(a, b) && Matches(b, c) && !Matches(a, c);
  }

  // ------------------------------------------------------------ parsing

  /** Up to the next delimiter, and what follows it. */
  function NextField(s: string): (string, string) {
    if s == "" then ("", "")
    else if s[0] == DELIMITER then ("", s[1..])
    else var (field, rest) := NextField(s[1..]); ([s[0]] + field, rest)
  }

  function Unstar(field: string): string {
    if field == "*" then "" else field
  }

  /** What `parseFromString` makes of a text. */
  function Parsed(s: string): Vlnv {
    var (vendor, s1) := NextField(s);
    var (library, s2) := NextField(s1);
    var (name, s3) := NextField(s2);
    var (version, s4) := NextField(s3);
    Vlnv(Unstar(vendor), Unstar(library), Unstar(name), Unstar(version))
  }

  /** One `std::getline` on the string stream. */
  method GetLine(stream: string) returns (field: string, rest: string)
    ensures (field, rest) == NextField(stream)
  {
    field, rest := "", stream;
    assert "" + NextField(stream).0 == NextField(stream).0;
    while rest != "" && rest[0] != DELIMITER
      invariant NextField(stream) == (field + NextField(rest).0, NextField(rest).1)
      decreases |rest|
    {
      assert field + ([rest[0]] + NextField(rest[1..]).0) == field + [rest[0]] + NextField(rest[1..]).0;
      field, rest := field + [rest[0]], rest[1..];
    }
    assert field + NextField(rest).0 == field;
    if rest != "" {
      rest := rest[1..];
    }
  }

  method ParseFromString(s: string) returns (v: Vlnv)
    ensures v == Parsed(s)
  {
    var vendor, s1 := GetLine(s);
    var library, s2 := GetLine(s1);
    var name, s3 := GetLine(s2);
    var version, s4 := GetLine(s3);
    if vendor == "*" {
      vendor := "";
    }
    if library == "*" {
      library := "";
    }
    if name == "*" {
      name := "";
    }
    if version == "*" {
      version := "";
    }
    v := Vlnv(vendor, library, name, version);
  }

  /** What is made of up to four fields: a star is a wildcard, missing fields are, too,
      and what follows a fourth colon is not read. */
  lemma FieldsParse(a: string, b: string, c: string, d: string, more: string)
    requires ':' !in a && ':' !in b && ':' !in c && ':' !in d
    ensures var v := Vlnv(if a == "*" then "" else a, if b == "*" then "" else b,
                          if c == "*" then "" else c, if d == "*" then "" else d);
      && Parsed(a + (":" + (b + (":" + (c + (":" + d)))))) == v
      && Parsed(a + (":" + (b + (":" + (c + (":" + (d + (":" + more)))))))) == v
      && Parsed(a + (":" + (b + (":" + c)))) == v.(version := "")
      && Parsed(a + (":" + b)) == v.(name := "", version := "")
      && Parsed(a) == v.(library := "", name := "", version := "")
  {
    hide NextField, Parsed;
    LastFields(a, b, c);
    LastField(d);
    FieldFirst(d, more);
    var s3 := d;
    var s2 := c + (":" + s3);
    var s1 := b + (":" + s2);
    FieldFirst(c, s3);
    FieldFirst(b, s2);
    FieldFirst(a, s1);
    ParsedSteps(a + (":" + s1), a, s1, b, s2, c, s3, d, "");
    s3 := d + (":" + more);
    s2 := c + (":" + s3);
    s1 := b + (":" + s2);
    FieldFirst(c, s3);
    FieldFirst(b, s2);
    FieldFirst(a, s1);
    ParsedSteps(a + (":" + s1), a, s1, b, s2, c, s3, d, more);
  }

  lemma LastFields(a: string, b: string, c: string)
    requires ':' !in a && ':' !in b && ':' !in c
    ensures var v := Vlnv(if a == "*" then "" else a, if b == "*" then "" else b, if c == "*" then "" else c, "");
      && Parsed(a + (":" + (b + (":" + c)))) == v
      && Parsed(a + (":" + b)) == v.(name := "")
      && Parsed(a) == v.(library := "", name := "")
  {
    hide NextField, Parsed;
    LastField(a);
    LastField(b);
    LastField(c);
    LastField("");
    FieldFirst(b, c);
    FieldFirst(a, b + (":" + c));
    ParsedSteps(a + (":" + (b + (":" + c))), a, b + (":" + c), b, c, c, "", "", "");
    FieldFirst(a, b);
    ParsedSteps(a + (":" + b), a, b, b, "", "", "", "", "");
    ParsedSteps(a, a, "", "", "", "", "", "", "");
  }

  lemma ParsedSteps(s: string, a: string, s1: string, b: string, s2: string, c: string, s3: string, d: string, s4: string)
    requires NextField(s) == (a, s1) && NextField(s1) == (b, s2) && NextField(s2) == (c, s3) && NextField(s3) == (d, s4)
    ensures Parsed(s) == Vlnv(if a == "*" then "" else a, if b == "*" then "" else b,
                              if c == "*" then "" else c, if d == "*" then "" else d)
  {
    hide NextField;
  }

  lemma LastField(a: string)
    requires ':' !in a
    ensures NextField(a) == (a, "")
  {
    NextFieldOf(a, "");
  }

  lemma FieldFirst(a: string, rest: string)
    requires ':' !in a
    ensures NextField(a + (":" + rest)) == (a, rest)
  {
    NextFieldOf(a, rest);
    assert a + [DELIMITER] + rest == a + (":" + rest);
  }

  // ------------------------------------------------------------ printing

  function Star(field: string): string {
    if field == "" then "*" else field
  }

  /** `operator<<` */
  function Shown(v: Vlnv): string {
    Star(v.vendor) + ([DELIMITER] + (Star(v.library) + ([DELIMITER] + (Star(v.name) + ([DELIMITER] + Star(v.version))))))
  }

  function UntilSpace(s: string): string {
    if s == "" || IsSpace(s[0]) then "" else [s[0]] + UntilSpace(s[1..])
  }

  /** `toString`: reading the text back from a stream stops at white space. */
  function ToString(v: Vlnv): string {
    UntilSpace(SkipSpace(Shown(v)))
  }

  // ------------------------------------------------------------ round trip

  /** A field that survives. */
  ghost predicate Plain(field: string) {
    field != "*" && forall i | 0 <= i < |field| :: field[i] != DELIMITER && !IsSpace(field[i])
  }

  ghost predicate AllPlain(v: Vlnv) {
    Plain(v.vendor) && Plain(v.library) && Plain(v.name) && Plain(v.version)
  }

  ghost predicate Unspaced(s: string) {
    forall i | 0 <= i < |s| :: !IsSpace(s[i])
  }

  lemma {:induction false} NextFieldMeaning(s: string)
    requires Unspaced(s)
    ensures Unspaced(NextField(s).0) && Unspaced(NextField(s).1)
    ensures forall i | 0 <= i < |NextField(s).0| :: NextField(s).0[i] != DELIMITER
  {
    if s != "" && s[0] != DELIMITER {
      assert Unspaced(s[1..]);
      NextFieldMeaning(s[1..]);
    }
  }

  lemma {:induction false} NextFieldOf(field: string, rest: string)
    requires forall i | 0 <= i < |field| :: field[i] != DELIMITER
    ensures NextField(field + [DELIMITER] + rest) == (field, rest)
    ensures NextField(field) == (field, "")
  {
    if field == "" {
      assert field + [DELIMITER] + rest == [DELIMITER] + rest;
    } else {
      var s := field + [DELIMITER] + rest;
      assert s[1..] == field[1..] + [DELIMITER] + rest;
      NextFieldOf(field[1..], rest);
      assert [field[0]] + field[1..] == field;
    }
  }

  lemma {:induction false} UntilSpaceMeaning(s: string)
    ensures Unspaced(UntilSpace(s))
    ensures Unspaced(s) ==> UntilSpace(s) == s
  {
    if s != "" && !IsSpace(s[0]) {
      UntilSpaceMeaning(s[1..]);
      assert Unspaced(s) ==> Unspaced(s[1..]);
    }
  }

  lemma ParsedIsPlain(s: string)
    requires Unspaced(s)
    ensures AllPlain(Parsed(s))
  {
    NextFieldMeaning(s);
    var s1 := NextField(s).1;
    NextFieldMeaning(s1);
    var s2 := NextField(s1).1;
    NextFieldMeaning(s2);
    NextFieldMeaning(NextField(s2).1);
  }

  lemma ShownParses(v: Vlnv)
    requires AllPlain(v)
    ensures Parsed(Shown(v)) == v
  {
    var s3 := Star(v.version);
    var s2 := Star(v.name) + ([DELIMITER] + s3);
    var s1 := Star(v.library) + ([DELIMITER] + s2);
    assert Shown(v) == Star(v.vendor) + ([DELIMITER] + s1);
    assert Shown(v) == Star(v.vendor) + [DELIMITER] + s1;
    NextFieldOf(Star(v.vendor), s1);
    assert s1 == Star(v.library) + [DELIMITER] + s2;
    NextFieldOf(Star(v.library), s2);
    assert s2 == Star(v.name) + [DELIMITER] + s3;
    NextFieldOf(Star(v.name), s3);
    NextFieldOf(s3, "");
  }

  /** The printed form: the fields with colons between, a star for each wildcard. */
  lemma ShownIs(v: Vlnv)
    ensures Shown(v) ==
      (if v.vendor == "" then "*" else v.vendor) + (":" + ((if v.library == "" then "*" else v.library) + (":" +
      ((if v.name == "" then "*" else v.name) + (":" + if v.version == "" then "*" else v.version)))))
    ensures AllPlain(v) ==> ToString(v) == Shown(v)
  {
    if AllPlain(v) {
      PlainShows(v);
    }
  }

  lemma UnspacedJoin(a: string, b: string)
    requires Unspaced(a) && Unspaced(b)
    ensures Unspaced(a + b)
  {
  }

  /** Printing and parsing gives a tag back exactly when its fields contain
      neither delimiter nor white space and none of them is a lone star. */
  lemma PrintParseIff(v: Vlnv)
    ensures Parsed(ToString(v)) == v <==> AllPlain(v)
  {
    UntilSpaceMeaning(SkipSpace(Shown(v)));
    if Parsed(ToString(v)) == v {
      ParsedIsPlain(ToString(v));
    }
    if AllPlain(v) {
      ShownParses(v);
      PlainShows(v);
    }
  }

  lemma PlainShows(v: Vlnv)
    requires AllPlain(v)
    ensures ToString(v) == Shown(v)
  {
    UntilSpaceMeaning(SkipSpace(Shown(v)));
    UnspacedJoin([DELIMITER], Star(v.version));
    UnspacedJoin(Star(v.name), [DELIMITER] + Star(v.version));
    var s2 := Star(v.name) + ([DELIMITER] + Star(v.version));
    UnspacedJoin([DELIMITER], s2);
    UnspacedJoin(Star(v.library), [DELIMITER] + s2);
    var s1 := Star(v.library) + ([DELIMITER] + s2);
    UnspacedJoin([DELIMITER], s1);
    UnspacedJoin(Star(v.vendor), [DELIMITER] + s1);
    assert SkipSpace(Shown(v)) == Shown(v);
  }
}
