/**
 * What the C++ `BaseSolver` constructor derives from its arguments besides
 * the matrices: the instance name, taken from the file name, and the node
 * count. Reading the instance file is not modelled; the instance it yields
 * is a parameter.
 */
module BaseSolver {
  import opened Tours

  /** `std::string::npos` and positions are folded into one `int`: -1 for "not found". */
  const NotFound: int := -1

  /** `find_last_of(set)`: the last position holding a character of `set`, or `NotFound`. */
  function FindLastOf(s: string, chars: set<char>): (r: int)
    ensures NotFound <= r < |s|
    ensures r != NotFound ==> s[r] in chars
    ensures forall k :: r < k < |s| ==> s[k] !in chars
    decreases |s|
  {
    if |s| == 0 then NotFound
    else if s[|s| - 1] in chars then |s| - 1
    else FindLastOf(s[..|s| - 1], chars)
  }

  /** Characters outside the set after `a` do not move the last match found in `a`. */
  lemma {:induction false} FindLastOfSkips(a: string, b: string, chars: set<char>)
    requires forall c :: c in b ==> c !in chars
    ensures FindLastOf(a + b, chars) == FindLastOf(a, chars)
    decreases |b|
  {
    if |b| > 0 {
      var b' := b[..|b| - 1];
      assert (a + b)[..|a + b| - 1] == a + b';
      assert b[|b| - 1] in b;
      FindLastOfSkips(a, b', chars);
    } else {
      assert a + b == a;
    }
  }

  /** The path separators the constructor splits on. */
  const Separators: set<char> := {'/', '\\'}

  /** The file name: everything after the last separator, or the whole path when there is none. */
  function FileName(path: string): (r: string)
    ensures forall c :: c in r ==> c !in Separators
    ensures |r| <= |path| && r == path[|path| - |r|..]
  {
    var d := FindLastOf(path, Separators);
    assert forall k :: d < k < |path| ==> path[k] !in Separators;
    if d != NotFound then path[d + 1..] else path
  }

  /**
   * The instance name: the file name up to its last '.', or the whole file
   * name when it has no '.'. It holds no separator, it is a prefix of the
   * file name, and when it was cut, the cut removed exactly the last '.'
   * and the dot-free extension after it.
   */
  function InstanceName(path: string): (r: string)
    ensures forall c :: c in r ==> c !in Separators
    ensures |r| <= |FileName(path)| && r == FileName(path)[..|r|]
    ensures '.' !in FileName(path) ==> r == FileName(path)
    ensures '.' in FileName(path) ==>
              && |r| < |FileName(path)| && FileName(path)[|r|] == '.'
              && '.' !in FileName(path)[|r| + 1..]
  {
    var f := FileName(path);
    var d := FindLastOf(f, {'.'});
    if d != NotFound then
      f[..d]
    else
      assert forall c :: c in f ==> c != '.';
      f
  }

  /**
   * The directory part of a path plays no role: a file `stem.ext` under any
   * directory, with a dot-free extension, names the instance `stem`, dots
   * inside the stem included.
   */
  lemma InstanceNameOfFile(dir: string, stem: string, ext: string)
    requires forall c :: c in stem ==> c !in Separators
    requires forall c :: c in ext ==> c !in Separators
    requires '.' !in ext
    ensures InstanceName(dir + "/" + stem + "." + ext) == stem
  {
    var path := dir + "/" + stem + "." + ext;
    var tail := stem + "." + ext;
    assert path == (dir + "/") + tail;
    FindLastOfSkips(dir + "/", tail, Separators);
    assert FileName(path) == tail;
    FindLastOfSkips(stem + ".", ext, {'.'});
  }

  /** What the constructor keeps: the matrices, the node count and the instance name. */
  datatype Base = Base(inst: Instance, totalNodes: nat, instanceName: string)

  /** The constructor, apart from reading the file and the `double` fraction of nodes to cover. */
  function NewBase(path: string, inst: Instance): (r: Base)
    ensures r.inst == inst && r.instanceName == InstanceName(path)
    ensures inst.WellFormed() ==> r.totalNodes == inst.Size()
  {
    Base(inst, |inst.costs|, InstanceName(path))
  }
}
