/** What the build engine knows about package templates. */
module Templates {

  datatype Option<+T> = None | Some(value: T)

  /** A template name such as `main/base-cbuild`, or whatever text was asked for. */
  datatype Name = Name(text: string)

  const BASE_CBUILD := Name("main/base-cbuild")

  /**
   * The outcome of constructing a template object, as `pkg_run_exc` sees it: an object, `SkipPackage`,
   * or any other exception. `version` is `PKGVER-rPKGREL`, absent when either part is.
   */
  datatype Parse =
    | Parsed(deps: seq<Name>, broken: bool, version: Option<string>)
    | Skipped
    | Raised

  /** The result of reading every template in one mode; a name without an entry cannot be read. */
  type View = map<Name, Parse>

  function Read(view: View, n: Name): Parse {
    if n in view then view[n] else Raised
  }

  predicate Good(view: View, n: Name) {
    Read(view, n).Parsed?
  }

  /** The build dependencies a template lists, none if it cannot be read. */
  function Deps(view: View, n: Name): seq<Name> {
    if Good(view, n) then Read(view, n).deps else []
  }

  /** A name without an entry cannot be read; a readable template lists what its entry says, in that order. */
  lemma ReadsEntry(view: View, n: Name)
    ensures n !in view ==> Read(view, n) == Raised && Deps(view, n) == []
    ensures n in view ==> Read(view, n) == view[n]
    ensures n in view && view[n].Parsed? ==> Good(view, n) && Deps(view, n) == view[n].deps
    ensures n in view && !view[n].Parsed? ==> !Good(view, n) && Deps(view, n) == []
  {
  }

  ghost predicate AllGood(view: View, S: set<Name>) {
    forall x :: x in S ==> Good(view, x)
  }

  ghost predicate AnyRaised(view: View, S: set<Name>) {
    exists x :: x in S && Read(view, x).Raised?
  }

  function EdgesOf(n: Name, deps: seq<Name>): set<(Name, Name)> {
    set d | d in deps :: (n, d)
  }

  /** The dependency edges of the readable templates among `S`. */
  ghost function DepEdges(view: View, S: set<Name>): set<(Name, Name)> {
    set x, d | x in S && d in Deps(view, x) :: (x, d)
  }

  /** Everything listed by the readable templates among `S`. */
  ghost function Listed(view: View, S: set<Name>): set<Name> {
    set x, d | x in S && d in Deps(view, x) :: d
  }

  ghost function AsSet(s: seq<Name>): set<Name> {
    set x | x in s
  }

  ghost function GoodIn(view: View, S: set<Name>): set<Name> {
    set x | x in S && Good(view, x)
  }

  lemma DepEdgesUnion(view: View, A: set<Name>, B: set<Name>)
    ensures DepEdges(view, A + B) == DepEdges(view, A) + DepEdges(view, B)
    ensures Listed(view, A + B) == Listed(view, A) + Listed(view, B)
    ensures GoodIn(view, A + B) == GoodIn(view, A) + GoodIn(view, B)
  {
  }

  lemma RaisedUnion(view: View, A: set<Name>, B: set<Name>)
    ensures AnyRaised(view, A + B) <==> AnyRaised(view, A) || AnyRaised(view, B)
    ensures AllGood(view, A + B) <==> AllGood(view, A) && AllGood(view, B)
  {
  }

  lemma SingleTemplate(view: View, t: Name)
    ensures DepEdges(view, {t}) == EdgesOf(t, Deps(view, t))
    ensures Listed(view, {t}) == AsSet(Deps(view, t))
    ensures GoodIn(view, {t}) == if Good(view, t) then {t} else {}
    ensures AnyRaised(view, {t}) <==> Read(view, t).Raised?
  {
    assert t in {t};
  }

  lemma UnionAssoc<T>(z: set<T>, a: set<T>, b: set<T>)
    ensures (z + a) + b == z + (a + b)
  {
  }

  /** Two rounds of adding two sets each, regrouped. */
  lemma UnionRounds<T>(z: set<T>, a: set<T>, b: set<T>, c: set<T>, d: set<T>)
    ensures (((z + a) + b) + c) + d == (z + (a + c)) + (b + d)
    ensures (z + (a + b)) + (c + d) == z + ((a + c) + (b + d))
  {
  }

  /** What happens during a bulk run: errors, templates found broken, builds started. */
  datatype Event = Fault(name: Name) | FoundBroken(name: Name) | Started(name: Name)

  /** `t1` is `t0` followed by errors of names that could not be read. */
  ghost predicate OnlyFaults(view: View, t0: seq<Event>, t1: seq<Event>) {
    t0 <= t1 && forall i :: |t0| <= i < |t1| ==> t1[i].Fault? && Read(view, t1[i].name).Raised?
  }
}
