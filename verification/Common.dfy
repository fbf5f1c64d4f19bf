/** What the models of several source files share. */
module Common {

  datatype Option<+T> = None | Some(value: T)

  /** `s` stands in `c` at offset `at`. */
  ghost predicate At<T>(c: seq<T>, at: nat, s: seq<T>) {
    at + |s| <= |c| && c[at..at + |s|] == s
  }

  lemma AtSplit<T>(c: seq<T>, at: nat, s: seq<T>, t: seq<T>)
    requires At(c, at, s + t)
    ensures At(c, at, s) && At(c, at + |s|, t) && at + |s| + |t| <= |c|
  {
    var whole := c[at..at + |s + t|];
    assert c[at..at + |s|] == whole[..|s|] == s;
    assert c[at + |s|..at + |s| + |t|] == whole[|s|..] == t;
  }

  lemma AtHead<T>(c: seq<T>, at: nat, s: seq<T>)
    requires At(c, at, s) && s != []
    ensures at < |c| && c[at] == s[0] && At(c, at + 1, s[1..])
  {
    assert c[at] == c[at..at + |s|][0];
    assert c[at + 1..at + |s|] == c[at..at + |s|][1..];
  }

  /** A field of a database record (DB_FIELD): its label and its value. */
  datatype Field = Field(name: string, value: string)
}
