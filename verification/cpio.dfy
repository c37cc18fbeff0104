/** Lookup in an octet-oriented cpio archive, against an encoder for the same format. */
module Cpio {
  import opened Wrappers

  type Byte = n: nat | n < 256

  const ZERO_DIGIT: Byte := 48
  const NODE_SIZE: nat := 76
  const MAGIC: seq<Byte> := [48, 55, 48, 55, 48, 55]

  // ----- octal numbers -----

  ghost function Pow8(k: nat): nat {
    if k == 0 then 1 else 8 * Pow8(k - 1)
  }

  /** The value of a number in octal digits, most significant digit first. */
  ghost function OctalValue(digits: seq<Byte>): int {
    if digits == [] then 0 else 8 * OctalValue(digits[..|digits| - 1]) + (digits[|digits| - 1] - ZERO_DIGIT)
  }

  /** `n` printed in `k` octal digits. */
  ghost function Octal(n: nat, k: nat): (digits: seq<Byte>)
    ensures |digits| == k
  {
    if k == 0 then [] else Octal(n / 8, k - 1) + [ZERO_DIGIT + n % 8]
  }

  ghost predicate Digits(digits: seq<Byte>) {
    forall d | d in digits :: ZERO_DIGIT <= d < ZERO_DIGIT + 8
  }

  lemma {:induction false} OctalReads(n: nat, k: nat)
    requires n < Pow8(k)
    ensures OctalValue(Octal(n, k)) == n && Digits(Octal(n, k))
  {
    if k > 0 {
      OctalReads(n / 8, k - 1);
      assert Octal(n, k)[..k - 1] == Octal(n / 8, k - 1);
    }
  }

  lemma {:induction false} OctalPrints(digits: seq<Byte>)
    requires Digits(digits)
    ensures 0 <= OctalValue(digits) < Pow8(|digits|) && Octal(OctalValue(digits), |digits|) == digits
  {
    if digits != [] {
      var init, last := digits[..|digits| - 1], digits[|digits| - 1];
      assert last in digits && forall d | d in init :: d in digits;
      OctalPrints(init);
      var n := OctalValue(digits);
      assert n / 8 == OctalValue(init) && n % 8 == last - ZERO_DIGIT;
      assert digits == init + [last];
    }
  }

  method OctalToBinary(octal: seq<Byte>) returns (number: nat)
    requires forall d | d in octal :: d >= ZERO_DIGIT
    ensures number == OctalValue(octal)
  {
    number := 0;
    for i := 0 to |octal|
      invariant number == OctalValue(octal[..i])
    {
      assert octal[i] in octal;
      assert octal[..i + 1][..i] == octal[..i];
      number := number * 8;
      number := number + (octal[i] - ZERO_DIGIT);
    }
    assert octal[..|octal|] == octal;
  }

  // ----- archives -----

  /** A file of the archive; `fields` are the header fields that a lookup does not read. */
  datatype File = File(fields: seq<Byte>, name: seq<Byte>, data: seq<Byte>)

  ghost predicate Encodable(f: File) {
    |f.fields| == 53 && |f.name| + 1 < Pow8(6) && |f.data| < Pow8(11)
  }

  ghost function Header(f: File): seq<Byte> {
    MAGIC + f.fields + Octal(|f.name| + 1, 6) + Octal(|f.data|, 11)
  }

  ghost function Encode(f: File): seq<Byte> {
    Written(Node(Header(f), f.name, 0, f.data))
  }

  ghost function EncodeAll(files: seq<File>): seq<Byte> {
    if files == [] then [] else Encode(files[0]) + EncodeAll(files[1..])
  }

  /** The first file of that name. */
  ghost function Lookup(files: seq<File>, name: seq<Byte>): Option<seq<Byte>> {
    if files == [] then None else if files[0].name == name then Some(files[0].data) else Lookup(files[1..], name)
  }

  lemma HeaderParts(f: File)
    requires Encodable(f)
    ensures var h := Header(f);
      |h| == NODE_SIZE && h[0..6] == MAGIC && h[59..65] == Octal(|f.name| + 1, 6) && h[65..76] == Octal(|f.data|, 11)
  {
    var h := Header(f);
    var a := MAGIC + f.fields;
    var b := a + Octal(|f.name| + 1, 6);
    assert |a| == 59 && |b| == 65;
    assert h[..59] == a && h[..65] == b;
  }

  lemma TailOf(s: seq<Byte>, pos: nat, x: seq<Byte>, y: seq<Byte>)
    requires pos <= |s| && s[pos..] == x + y
    ensures pos + |x| <= |s| && s[pos..pos + |x|] == x && s[pos + |x|..] == y
  {
    assert s[pos..][..|x|] == x && s[pos..][|x|..] == y;
  }

  /** What a lookup comes to. A header of 75 bytes is read past its end; other bad ones stop the kernel. */
  datatype Outcome = Found(data: seq<Byte>) | Missing | Overreads | Panics

  function NameField(node: seq<Byte>): seq<Byte>
    requires |node| >= NODE_SIZE
  {
    node[59..65]
  }

  function SizeField(node: seq<Byte>): seq<Byte>
    requires |node| >= NODE_SIZE
  {
    node[65..76]
  }

  predicate Numeral(digits: seq<Byte>) {
    forall d | d in digits :: d >= ZERO_DIGIT
  }

  /** The header can be read: no digit lies below '0', and the name is there. */
  ghost predicate Legible(node: seq<Byte>)
    requires |node| >= NODE_SIZE
  {
    && Numeral(NameField(node)) && Numeral(SizeField(node))
    && 0 < OctalValue(NameField(node)) <= |node| - NODE_SIZE + 1
  }

  ghost function NameLen(node: seq<Byte>): nat
    requires |node| >= NODE_SIZE && Legible(node)
  {
    OctalValue(NameField(node))
  }

  ghost function FileSize(node: seq<Byte>): nat
    requires |node| >= NODE_SIZE && Legible(node)
  {
    NumeralValue(SizeField(node));
    OctalValue(SizeField(node))
  }

  lemma {:induction false} NumeralValue(digits: seq<Byte>)
    requires Numeral(digits)
    ensures OctalValue(digits) >= 0
  {
    if digits != [] {
      var init := digits[..|digits| - 1];
      assert digits[|digits| - 1] in digits;
      forall d | d in init
        ensures d >= ZERO_DIGIT
      {
        assert d in digits;
      }
      NumeralValue(init);
    }
  }

  /** What a lookup in any bytes comes to. */
  ghost function Search(bytes: seq<Byte>, name: seq<Byte>): Outcome
    decreases |bytes|
  {
    if |bytes| < NODE_SIZE - 1 then Missing
    else if |bytes| < NODE_SIZE then Overreads
    else if !Legible(bytes) then Panics
    else if bytes[0..6] != MAGIC then Missing
    else
      var n, size := NODE_SIZE + NameLen(bytes), FileSize(bytes);
      if bytes[NODE_SIZE..n - 1] != name then if n + size <= |bytes| then Search(bytes[n + size..], name) else Missing
      else if n + size <= |bytes| then Found(bytes[n..n + size])
      else Panics
  }

  /** The loop, on any archive. */
  method FindFile(archive: seq<Byte>, fileName: seq<Byte>) returns (r: Outcome)
    ensures r == Search(archive, fileName)
  {
    var currentPos: nat := 0;
    assert archive[0..] == archive;
    while currentPos < |archive|
      invariant currentPos <= |archive| ==> Search(archive, fileName) == Search(archive[currentPos..], fileName)
      invariant currentPos > |archive| ==> Search(archive, fileName) == Missing
      decreases |archive| - currentPos
    {
      var next, outcome := Visit(archive, currentPos, fileName);
      if next == 0 {
        return outcome;
      }
      assert currentPos + next <= |archive| ==> archive[currentPos..][next..] == archive[currentPos + next..];
      currentPos := currentPos + next;
    }
    r := Missing;
  }

  /** One node: how far the next one is, or what the lookup comes to. */
  method Visit(archive: seq<Byte>, pos: nat, fileName: seq<Byte>) returns (next: nat, outcome: Outcome)
    requires pos < |archive|
    ensures next == 0 ==> outcome == Search(archive[pos..], fileName)
    ensures next > 0 && pos + next <= |archive| ==>
      Search(archive[pos..], fileName) == Search(archive[pos..][next..], fileName)
    ensures pos + next > |archive| ==> Search(archive[pos..], fileName) == Missing
  {
    outcome := Missing;
    if |archive| - pos + 1 < NODE_SIZE {
      return 0, Missing;
    }
    if |archive| - pos < NODE_SIZE {
      return 0, Overreads;
    }
    var readable, nameLen, fileSize := ReadNode(archive, pos);
    if !readable {
      return 0, Panics;
    }
    var nodeName := archive[pos + NODE_SIZE..][0..nameLen - 1];
    SliceOf(archive, pos, NODE_SIZE, nameLen - 1);
    assert archive[pos..pos + 6] == archive[pos..][0..6];
    if archive[pos..pos + 6] != MAGIC {
      return 0, Missing;
    }
    if fileName != nodeName {
      return NODE_SIZE + nameLen + fileSize, Missing;
    }
    if |archive| < pos + NODE_SIZE + nameLen + fileSize {
      return 0, Panics;
    }
    SliceOf(archive, pos, NODE_SIZE + nameLen, fileSize);
    return 0, Found(archive[pos + NODE_SIZE + nameLen..][0..fileSize]);
  }

  /** The two lengths of the node at `pos`, if they can be read and the name is there. */
  method ReadNode(archive: seq<Byte>, pos: nat) returns (readable: bool, nameLen: nat, fileSize: nat)
    requires pos + NODE_SIZE <= |archive|
    ensures readable == Legible(archive[pos..])
    ensures readable ==> nameLen == NameLen(archive[pos..]) && fileSize == FileSize(archive[pos..])
  {
    var node := archive[pos..];
    readable, nameLen, fileSize := false, 0, 0;
    if Numeral(NameField(node)) && Numeral(SizeField(node)) {
      nameLen := OctalToBinary(NameField(node));
      fileSize := OctalToBinary(SizeField(node));
      readable := 0 < nameLen <= |node| - NODE_SIZE + 1;
    }
  }

  lemma SliceOf(s: seq<Byte>, pos: nat, lo: nat, len: nat)
    requires pos + lo + len <= |s|
    ensures s[pos..][lo..lo + len] == s[pos + lo..][0..len]
  {
  }

  // ----- nodes -----

  /** A node as it may lie in an archive: any byte behind the name, the fields in any digits. */
  datatype Node = Node(header: seq<Byte>, name: seq<Byte>, end: Byte, data: seq<Byte>)

  ghost predicate Whole(x: Node) {
    && |x.header| == NODE_SIZE && x.header[0..6] == MAGIC && Numeral(NameField(x.header)) && Numeral(SizeField(x.header))
    && OctalValue(NameField(x.header)) == |x.name| + 1 && OctalValue(SizeField(x.header)) == |x.data|
  }

  ghost function Written(x: Node): seq<Byte> {
    x.header + (x.name + ([x.end] + x.data))
  }

  ghost function WrittenAll(nodes: seq<Node>): seq<Byte> {
    if nodes == [] then [] else Written(nodes[0]) + WrittenAll(nodes[1..])
  }

  /** The parts of a node: its header says how long its name and data are, and what follows is untouched. */
  lemma NodeParts(x: Node, more: seq<Byte>)
    requires Whole(x)
    ensures var node := Written(x) + more; var n := NODE_SIZE + |x.name| + 1;
      && |node| >= n + |x.data| && Legible(node) && node[0..6] == MAGIC
      && NameLen(node) == |x.name| + 1 && FileSize(node) == |x.data|
      && node[NODE_SIZE..n - 1] == x.name && node[n..n + |x.data|] == x.data && node[n + |x.data|..] == more
  {
    var node, body := Written(x) + more, x.name + ([x.end] + (x.data + more));
    Regrouped(x, more);
    HeaderSlices(node, x.header, body);
    BodyParts(node, x.name, x.end, x.data, more);
  }

  lemma Regrouped(x: Node, more: seq<Byte>)
    ensures Written(x) + more == x.header + (x.name + ([x.end] + (x.data + more)))
  {
  }

  lemma HeaderSlices(node: seq<Byte>, h: seq<Byte>, body: seq<Byte>)
    requires |h| == NODE_SIZE && node == h + body
    ensures node[NODE_SIZE..] == body && node[0..6] == h[0..6] && NameField(node) == NameField(h) && SizeField(node) == SizeField(h)
  {
  }

  lemma BodyParts(node: seq<Byte>, name: seq<Byte>, end: Byte, data: seq<Byte>, more: seq<Byte>)
    requires |node| >= NODE_SIZE && node[NODE_SIZE..] == name + ([end] + (data + more))
    ensures var n := NODE_SIZE + |name| + 1;
      && |node| >= n + |data| && node[NODE_SIZE..n - 1] == name && node[n..n + |data|] == data && node[n + |data|..] == more
  {
    TailOf(node, NODE_SIZE, name, [end] + (data + more));
    TailOf(node, NODE_SIZE + |name|, [end], data + more);
    TailOf(node, NODE_SIZE + |name| + 1, data, more);
  }

  /** The lookup passes a whole node of another name. */
  lemma SearchPast(x: Node, more: seq<Byte>, name: seq<Byte>)
    requires Whole(x)
    ensures Search(Written(x) + more, name) == if x.name == name then Found(x.data) else Search(more, name)
  {
    NodeParts(x, more);
  }

  // ----- lookups in encodings -----

  /**
   * In the encoding of any list of files, followed by any bytes, the lookup finds the data of the first
   * file of that name; if there is none, the bytes behind the files decide.
   */
  lemma {:induction false} SearchEncoded(files: seq<File>, tail: seq<Byte>, name: seq<Byte>)
    requires forall f | f in files :: Encodable(f)
    ensures Search(EncodeAll(files) + tail, name)
      == match Lookup(files, name) case Some(data) => Found(data) case None => Search(tail, name)
  {
    if files == [] {
      assert EncodeAll(files) + tail == tail;
    } else {
      var f, more := files[0], EncodeAll(files[1..]) + tail;
      assert f in files && forall g | g in files[1..] :: g in files;
      SearchEncoded(files[1..], tail, name);
      Associates(Encode(f), EncodeAll(files[1..]), tail);
      FileWhole(f);
      SearchPast(Node(Header(f), f.name, 0, f.data), more, name);
    }
  }

  lemma Associates(a: seq<Byte>, b: seq<Byte>, c: seq<Byte>)
    ensures a + b + c == a + (b + c)
  {
  }

  lemma FileWhole(f: File)
    requires Encodable(f)
    ensures Whole(Node(Header(f), f.name, 0, f.data))
  {
    HeaderParts(f);
    OctalReads(|f.name| + 1, 6);
    OctalReads(|f.data|, 11);
  }

  // ----- what a found file is -----

  /** The last node has that name and data, and no other has the name. */
  ghost predicate EndsWith(nodes: seq<Node>, name: seq<Byte>, data: seq<Byte>) {
    && nodes != [] && nodes[|nodes| - 1].name == name && nodes[|nodes| - 1].data == data
    && (forall i | 0 <= i < |nodes| :: Whole(nodes[i])) && forall i | 0 <= i < |nodes| - 1 :: nodes[i].name != name
  }

  ghost predicate Holds(bytes: seq<Byte>, nodes: seq<Node>, tail: seq<Byte>) {
    bytes == WrittenAll(nodes) + tail
  }

  /** Whatever the archive, something is found if and only if it is the data of the first node of that name. */
  lemma FoundIff(bytes: seq<Byte>, name: seq<Byte>, data: seq<Byte>)
    ensures Search(bytes, name) == Found(data) <==>
      exists nodes, tail :: Holds(bytes, nodes, tail) && EndsWith(nodes, name, data)
  {
    if Search(bytes, name) == Found(data) {
      var nodes, tail := FoundIsThere(bytes, name);
      assert Holds(bytes, nodes, tail);
    }
    forall nodes, tail | Holds(bytes, nodes, tail) && EndsWith(nodes, name, data)
      ensures Search(bytes, name) == Found(data)
    {
      ThereIsFound(nodes, tail, name, data);
    }
  }

  lemma {:induction false} ThereIsFound(nodes: seq<Node>, tail: seq<Byte>, name: seq<Byte>, data: seq<Byte>)
    requires EndsWith(nodes, name, data)
    ensures Search(WrittenAll(nodes) + tail, name) == Found(data)
  {
    var x, rest := nodes[0], nodes[1..];
    var more := WrittenAll(rest) + tail;
    Associates(Written(x), WrittenAll(rest), tail);
    SearchPast(x, more, name);
    if |nodes| > 1 {
      ThereIsFound(rest, tail, name, data);
    }
  }

  lemma {:induction false} FoundIsThere(bytes: seq<Byte>, name: seq<Byte>) returns (nodes: seq<Node>, tail: seq<Byte>)
    requires Search(bytes, name).Found?
    ensures bytes == WrittenAll(nodes) + tail && EndsWith(nodes, name, Search(bytes, name).data)
    decreases |bytes|
  {
    var n, size := NODE_SIZE + NameLen(bytes), FileSize(bytes);
    var x := Node(bytes[..NODE_SIZE], bytes[NODE_SIZE..n - 1], bytes[n - 1], bytes[n..n + size]);
    var more := bytes[n + size..];
    CutNode(bytes, n, size);
    if x.name == name {
      nodes, tail := [x], more;
      assert WrittenAll([x]) == Written(x) + WrittenAll([]) == Written(x);
    } else {
      var rest, t := FoundIsThere(more, name);
      nodes, tail := [x] + rest, t;
      assert nodes[1..] == rest;
      Associates(Written(x), WrittenAll(rest), t);
    }
  }

  lemma CutNode(bytes: seq<Byte>, n: nat, size: nat)
    requires |bytes| >= NODE_SIZE && Legible(bytes) && bytes[0..6] == MAGIC
    requires n == NODE_SIZE + NameLen(bytes) && size == FileSize(bytes) && n + size <= |bytes|
    ensures var x := Node(bytes[..NODE_SIZE], bytes[NODE_SIZE..n - 1], bytes[n - 1], bytes[n..n + size]);
      Whole(x) && bytes == Written(x) + bytes[n + size..]
  {
    var h := bytes[..NODE_SIZE];
    assert h[0..6] == bytes[0..6] && NameField(h) == NameField(bytes) && SizeField(h) == SizeField(bytes);
  }

  // ----- what a lookup comes to -----

  /** No digit of the two lengths lies below '0', and the name is there. */
  ghost predicate Readable(t: seq<Byte>)
    requires |t| >= 76
  {
    (forall k | 59 <= k < 76 :: t[k] >= 48) && 0 < OctalValue(t[59..65]) <= |t| - 75
  }

  ghost predicate Named(t: seq<Byte>, name: seq<Byte>)
    requires |t| >= 76 && Readable(t)
  {
    t[76..75 + OctalValue(t[59..65])] == name
  }

  ghost function DataLen(t: seq<Byte>): nat
    requires |t| >= 76 && Readable(t)
  {
    NumeralValue(t[65..76]);
    OctalValue(t[65..76])
  }

  /** Where the node would end. */
  ghost function NodeEnd(t: seq<Byte>): nat
    requires |t| >= 76 && Readable(t)
  {
    76 + OctalValue(t[59..65]) + DataLen(t)
  }

  /** The bytes are no whole node of another name, and a lookup that gets to them comes to `o`. */
  ghost predicate Ends(t: seq<Byte>, name: seq<Byte>, o: Outcome) {
    if |t| < 75 then o == Missing
    else if |t| == 75 then o == Overreads
    else if !Readable(t) then o == Panics
    else if t[0..6] != [48, 55, 48, 55, 48, 55] then o == Missing
    else if NodeEnd(t) > |t| then o == if Named(t, name) then Panics else Missing
    else Named(t, name) && o == Found(t[NodeEnd(t) - DataLen(t)..NodeEnd(t)])
  }

  ghost predicate Passed(nodes: seq<Node>, name: seq<Byte>) {
    forall i | 0 <= i < |nodes| :: Whole(nodes[i]) && nodes[i].name != name
  }

  /**
   * Whatever the archive, the lookup comes to `o` if and only if the archive is whole nodes of other names
   * and then bytes at which it comes to `o`.
   */
  lemma SearchIff(bytes: seq<Byte>, name: seq<Byte>, o: Outcome)
    ensures Search(bytes, name) == o <==>
      exists nodes, tail :: Holds(bytes, nodes, tail) && Passed(nodes, name) && Ends(tail, name, o)
  {
    var nodes, tail := PassNodes(bytes, name);
    assert Holds(bytes, nodes, tail) && Ends(tail, name, Search(bytes, name));
    forall nodes, tail | Holds(bytes, nodes, tail) && Passed(nodes, name) && Ends(tail, name, o)
      ensures Search(bytes, name) == o
    {
      NodesPassed(nodes, tail, name);
      EndReached(tail, name, o);
    }
  }

  lemma Fields(t: seq<Byte>)
    requires |t| >= NODE_SIZE
    ensures Readable(t) <==> Legible(t)
    ensures Readable(t) ==> NodeEnd(t) == NODE_SIZE + NameLen(t) + FileSize(t) && DataLen(t) == FileSize(t)
  {
    assert forall k | 59 <= k < 65 :: t[k] == NameField(t)[k - 59] && t[k] in NameField(t);
    assert forall k | 65 <= k < 76 :: t[k] == SizeField(t)[k - 65] && t[k] in SizeField(t);
  }

  lemma EndReached(t: seq<Byte>, name: seq<Byte>, o: Outcome)
    requires Ends(t, name, o)
    ensures Search(t, name) == o
  {
    if |t| >= NODE_SIZE {
      Fields(t);
    }
  }

  lemma {:induction false} NodesPassed(nodes: seq<Node>, tail: seq<Byte>, name: seq<Byte>)
    requires Passed(nodes, name)
    ensures Search(WrittenAll(nodes) + tail, name) == Search(tail, name)
  {
    if nodes == [] {
      assert WrittenAll(nodes) + tail == tail;
    } else {
      NodesPassed(nodes[1..], tail, name);
      Associates(Written(nodes[0]), WrittenAll(nodes[1..]), tail);
      SearchPast(nodes[0], WrittenAll(nodes[1..]) + tail, name);
    }
  }

  /** Every archive is whole nodes of other names and then bytes that end a lookup. */
  lemma {:induction false} PassNodes(bytes: seq<Byte>, name: seq<Byte>) returns (nodes: seq<Node>, tail: seq<Byte>)
    ensures bytes == WrittenAll(nodes) + tail && Passed(nodes, name) && Ends(tail, name, Search(bytes, name))
    decreases |bytes|
  {
    if Passes(bytes, name) {
      var n, size := NODE_SIZE + NameLen(bytes), FileSize(bytes);
      var x := Node(bytes[..NODE_SIZE], bytes[NODE_SIZE..n - 1], bytes[n - 1], bytes[n..n + size]);
      CutNode(bytes, n, size);
      SearchPast(x, bytes[n + size..], name);
      var rest, t := PassNodes(bytes[n + size..], name);
      nodes, tail := [x] + rest, t;
      assert nodes[1..] == rest;
      Associates(Written(x), WrittenAll(rest), t);
    } else {
      nodes, tail := [], bytes;
      assert WrittenAll(nodes) + tail == bytes;
      EndsHere(bytes, name);
    }
  }

  /** The bytes begin with a whole node of another name. */
  ghost predicate Passes(bytes: seq<Byte>, name: seq<Byte>) {
    && |bytes| >= NODE_SIZE && Legible(bytes) && bytes[0..6] == MAGIC
    && NODE_SIZE + NameLen(bytes) + FileSize(bytes) <= |bytes|
    && bytes[NODE_SIZE..NODE_SIZE + NameLen(bytes) - 1] != name
  }

  lemma EndsHere(bytes: seq<Byte>, name: seq<Byte>)
    requires !Passes(bytes, name)
    ensures Ends(bytes, name, Search(bytes, name))
  {
    if |bytes| >= NODE_SIZE {
      Fields(bytes);
    }
  }

  /** In an archive of files nothing is found exactly if no file has the name; else the first of that name is. */
  lemma SearchFiles(files: seq<File>, name: seq<Byte>)
    requires forall f | f in files :: Encodable(f)
    ensures Search(EncodeAll(files), name) == Missing <==> forall f | f in files :: f.name != name
    ensures forall i | 0 <= i < |files| && files[i].name == name && (forall j | 0 <= j < i :: files[j].name != name) ::
      Search(EncodeAll(files), name) == Found(files[i].data)
  {
    assert EncodeAll(files) + [] == EncodeAll(files);
    SearchEncoded(files, [], name);
    LookupFirst(files, name);
  }

  lemma {:induction false} LookupFirst(files: seq<File>, name: seq<Byte>)
    ensures Lookup(files, name).None? <==> forall f | f in files :: f.name != name
    ensures forall i | 0 <= i < |files| && files[i].name == name && (forall j | 0 <= j < i :: files[j].name != name) ::
      Lookup(files, name) == Some(files[i].data)
  {
    if files != [] {
      var rest := files[1..];
      LookupFirst(rest, name);
      assert forall f :: f in files <==> f == files[0] || f in rest;
      forall i | 0 <= i < |files| && files[i].name == name && (forall j | 0 <= j < i :: files[j].name != name)
        ensures Lookup(files, name) == Some(files[i].data)
      {
        if i > 0 {
          assert files[0].name != name && rest[i - 1] == files[i];
          assert forall j | 0 <= j < i - 1 :: rest[j] == files[j + 1];
        }
      }
    }
  }
}
