/** The running stream cipher: its state stays a permutation, its keystream is one however it is asked for, and two
    instances of a key undo each other. */
module Rc4Cipher {
  type Index = n: nat | n < 256

  function Identity(): seq<nat> {
    seq(256, i => i)
  }

  /** Every byte value exactly once. */
  ghost predicate IsPermutation(state: seq<nat>) {
    |state| == 256 && multiset(state) == multiset(Identity())
  }

  lemma ValuesAreBytes(state: seq<nat>)
    requires IsPermutation(state)
    ensures forall i | 0 <= i < 256 :: state[i] < 256
  {
    forall i | 0 <= i < 256
      ensures state[i] < 256
    {
      assert state[i] in multiset(state);
      assert state[i] in Identity();
    }
  }

  function Swapped(state: seq<nat>, left: nat, right: nat): seq<nat>
    requires left < |state| && right < |state|
  {
    state[left := state[right]][right := state[left]]
  }

  lemma SwapKeeps(state: seq<nat>, left: Index, right: Index)
    requires IsPermutation(state)
    ensures IsPermutation(Swapped(state, left, right))
  {
    var once := state[left := state[right]];
    assert multiset(once) == multiset(state) - multiset{state[left]} + multiset{state[right]};
    assert multiset(Swapped(state, left, right)) == multiset(once) - multiset{once[right]} + multiset{state[left]};
  }

  // ---------- the cipher as a function of its state ----------

  datatype Cipher = Cipher(state: seq<nat>, from: nat, to: nat)

  type Running = c: Cipher | |c.state| == 256 && c.from < 256 && c.to < 256 witness Cipher(Identity(), 0, 0)

  ghost predicate IsReady(c: Cipher) {
    IsPermutation(c.state) && c.from < 256 && c.to < 256
  }

  function MixedAt(key: seq<nat>, state: seq<nat>, mixed: nat, index: nat): nat
    requires key != [] && index < |state|
  {
    Sum(mixed, state[index], key[index % |key|])
  }

  /** `(a + b + c) & 0xff`. */
  function Sum(a: nat, b: nat, c: nat): (sum: nat)
    ensures sum < 256
  {
    (a + b + c) % 256
  }

  /** Key setup from `index` on. */
  function Mix(key: seq<nat>, state: seq<nat>, mixed: nat, index: nat): (after: seq<nat>)
    requires key != [] && |state| == 256 && index <= 256
    ensures |after| == 256
    decreases 256 - index
  {
    if index == 256 then state
    else
      var next := MixedAt(key, state, mixed, index);
      Mix(key, Swapped(state, index, next), next, index + 1)
  }

  lemma MixTurn(key: seq<nat>, state: seq<nat>, mixed: nat, index: nat)
    requires key != [] && |state| == 256 && index < 256
    ensures var next := Sum(mixed, state[index], key[index % |key|]);
            next < 256 && Mix(key, state, mixed, index) == Mix(key, Swapped(state, index, next), next, index + 1)
  {
  }

  lemma MixEnd(key: seq<nat>, state: seq<nat>, mixed: nat)
    requires key != [] && |state| == 256
    ensures Mix(key, state, mixed, 256) == state
  {
  }

  function KeyedState(key: seq<nat>): (state: seq<nat>)
    requires key != []
    ensures |state| == 256
  {
    Mix(key, Identity(), 0, 0)
  }

  function Stepped(c: Running): Running {
    var from := (c.from + 1) % 256;
    var to := (c.to + c.state[from]) % 256;
    Cipher(Swapped(c.state, from, to), from, to)
  }

  function OutputOf(c: Running): nat {
    c.state[(c.state[c.from] + c.state[c.to]) % 256]
  }

  function AfterBytes(c: Running, n: nat): Running
    decreases n
  {
    if n == 0 then c else AfterBytes(Stepped(c), n - 1)
  }

  function Stream(c: Running, n: nat): (bytes: seq<nat>)
    ensures |bytes| == n
    decreases n
  {
    if n == 0 then [] else [OutputOf(Stepped(c))] + Stream(Stepped(c), n - 1)
  }

  function Xor(data: bv8, key: nat): bv8 {
    data ^ ((key % 256) as bv8)
  }

  function Xored(data: seq<bv8>, keys: seq<nat>): (out: seq<bv8>)
    requires |data| == |keys|
    ensures |out| == |data|
  {
    seq(|data|, i requires 0 <= i < |data| => Xor(data[i], keys[i]))
  }

  function Applied(c: Running, data: seq<bv8>): (out: seq<bv8>)
    ensures |out| == |data|
  {
    Xored(data, Stream(c, |data|))
  }

  lemma IsIdentity(state: seq<nat>)
    requires |state| == 256 && forall i | 0 <= i < 256 :: state[i] == i
    ensures state == Identity()
  {
  }

  // ---------- invariants ----------

  lemma {:induction false} MixKeeps(key: seq<nat>, state: seq<nat>, mixed: nat, index: nat)
    requires key != [] && IsPermutation(state) && index <= 256
    ensures IsPermutation(Mix(key, state, mixed, index))
    decreases 256 - index
  {
    if index < 256 {
      var next := MixedAt(key, state, mixed, index);
      SwapKeeps(state, index, next);
      MixKeeps(key, Swapped(state, index, next), next, index + 1);
    }
  }

  lemma KeyedIsReady(key: seq<nat>)
    requires key != []
    ensures IsReady(Cipher(KeyedState(key), 0, 0))
  {
    MixKeeps(key, Identity(), 0, 0);
  }

  lemma StepKeeps(c: Running)
    requires IsReady(c)
    ensures IsReady(Stepped(c)) && OutputOf(Stepped(c)) < 256
  {
    hide Identity;
    var from := (c.from + 1) % 256;
    SwapKeeps(c.state, from, (c.to + c.state[from]) % 256);
    ValuesAreBytes(Stepped(c).state);
  }

  lemma {:induction false} BytesKeep(c: Running, n: nat)
    requires IsReady(c)
    ensures IsReady(AfterBytes(c, n)) && forall i | 0 <= i < n :: Stream(c, n)[i] < 256
    decreases n
  {
    hide IsReady, Stepped, OutputOf;
    if n > 0 {
      StepKeeps(c);
      BytesKeep(Stepped(c), n - 1);
    }
  }

  // ---------- one keystream ----------

  lemma {:induction false} StreamSplits(c: Running, m: nat, n: nat)
    ensures AfterBytes(c, m + n) == AfterBytes(AfterBytes(c, m), n)
    ensures Stream(c, m + n) == Stream(c, m) + Stream(AfterBytes(c, m), n)
    decreases m
  {
    hide Stepped, OutputOf;
    if m > 0 {
      StreamSplits(Stepped(c), m - 1, n);
    }
  }

  lemma {:induction false} LastByte(c: Running, n: nat)
    ensures Stream(c, n + 1) == Stream(c, n) + [OutputOf(AfterBytes(c, n + 1))]
    ensures AfterBytes(c, n + 1) == Stepped(AfterBytes(c, n))
    decreases n
  {
    hide Stepped, OutputOf;
    if n > 0 {
      LastByte(Stepped(c), n - 1);
    }
  }

  /** Applying to two messages in turn gives the two halves of applying to both at once. */
  lemma AppliedSplits(c: Running, a: seq<bv8>, b: seq<bv8>)
    ensures Applied(c, a + b) == Applied(c, a) + Applied(AfterBytes(c, |a|), b)
  {
    hide Stream, AfterBytes, Xored;
    StreamSplits(c, |a|, |b|);
    XoredJoin(a, b, Stream(c, |a|), Stream(AfterBytes(c, |a|), |b|));
  }

  lemma XoredJoin(a: seq<bv8>, b: seq<bv8>, s: seq<nat>, t: seq<nat>)
    requires |a| == |s| && |b| == |t|
    ensures Xored(a + b, s + t) == Xored(a, s) + Xored(b, t)
  {
    hide Xor;
    var out, parts := Xored(a + b, s + t), Xored(a, s) + Xored(b, t);
    assert forall i | 0 <= i < |a| :: out[i] == Xor(a[i], s[i]) == parts[i];
    assert forall i | |a| <= i < |a| + |b| :: out[i] == Xor(b[i - |a|], t[i - |a|]) == parts[i];
  }

  lemma XorTwice(d: bv8, k: nat)
    ensures Xor(Xor(d, k), k) == d
  {
    var x: bv8 := (k % 256) as bv8;
    assert (d ^ x) ^ x == d;
  }

  lemma AppliedTwice(c: Running, data: seq<bv8>)
    ensures Applied(c, Applied(c, data)) == data
  {
    hide Stream, Xor;
    var keys := Stream(c, |data|);
    forall i | 0 <= i < |data|
      ensures Xored(Xored(data, keys), keys)[i] == data[i]
    {
      XorTwice(data[i], keys[i]);
    }
  }

  /** A connection's messages under one running instance. */
  function Conversation(c: Running, messages: seq<seq<bv8>>): (sent: seq<seq<bv8>>)
    ensures |sent| == |messages|
    decreases |messages|
  {
    if messages == [] then []
    else [Applied(c, messages[0])] + Conversation(AfterBytes(c, |messages[0]|), messages[1..])
  }

  function Joined(messages: seq<seq<bv8>>): seq<bv8> {
    if messages == [] then [] else messages[0] + Joined(messages[1..])
  }

  /** The receiver's instance of the same key turns what was sent into what was meant, message by message. */
  lemma {:induction false} InstancesUndo(c: Running, messages: seq<seq<bv8>>)
    ensures Conversation(c, Conversation(c, messages)) == messages
    decreases |messages|
  {
    if messages != [] {
      var sent := Conversation(c, messages);
      AppliedTwice(c, messages[0]);
      InstancesUndo(AfterBytes(c, |messages[0]|), messages[1..]);
      assert sent[1..] == Conversation(AfterBytes(c, |messages[0]|), messages[1..]);
      assert messages == [messages[0]] + messages[1..];
    }
  }

  /** Where messages are cut does not matter. */
  lemma {:induction false} CutsDoNotMatter(c: Running, messages: seq<seq<bv8>>)
    ensures Joined(Conversation(c, messages)) == Applied(c, Joined(messages))
    decreases |messages|
  {
    if messages != [] {
      var rest := Conversation(AfterBytes(c, |messages[0]|), messages[1..]);
      CutsDoNotMatter(AfterBytes(c, |messages[0]|), messages[1..]);
      AppliedSplits(c, messages[0], Joined(messages[1..]));
      assert Conversation(c, messages)[1..] == rest;
    }
  }

  // ---------- the class ----------

  class Rc4 {
    const state: array<nat>
    var from: nat
    var to: nat

    ghost predicate Valid()
      reads this, state
    {
      state.Length == 256 && IsReady(Cipher(state[..], from, to))
    }

    ghost function Value(): Running
      requires Valid()
      reads this, state
    {
      Cipher(state[..], from, to)
    }

    constructor (key: seq<nat>)
      requires key != []
      ensures Valid() && fresh(state) && Value() == Cipher(KeyedState(key), 0, 0)
    {
      state := new nat[256];
      from, to := 0, 0;
      new;
      Fill();
      MixKey(key);
      KeyedIsReady(key);
    }

    method Fill()
      requires state.Length == 256
      modifies state
      ensures state[..] == Identity()
    {
      for index := 0 to 256
        invariant forall i | 0 <= i < index :: state[i] == i
      {
        state[index] := index;
      }
      IsIdentity(state[..]);
    }

    method MixKey(key: seq<nat>)
      requires key != [] && state.Length == 256
      modifies state
      ensures state[..] == Mix(key, old(state[..]), 0, 0)
    {
      hide Mix, MixedAt, Swapped;
      var mixed: nat := 0;
      for index := 0 to 256
        invariant Mix(key, state[..], mixed, index) == Mix(key, old(state[..]), 0, 0)
      {
        MixTurn(key, state[..], mixed, index);
        mixed := Sum(mixed, state[index], key[index % |key|]);
        Swap(index, mixed);
      }
      MixEnd(key, state[..], mixed);
    }

    method Swap(left: nat, right: nat)
      requires left < state.Length && right < state.Length
      modifies state
      ensures state[..] == Swapped(old(state[..]), left, right)
    {
      var held := state[left];
      state[left] := state[right];
      state[right] := held;
    }

    method KeystreamByte() returns (byte: nat)
      requires Valid()
      modifies this, state
      ensures Valid() && Value() == Stepped(old(Value())) && byte == OutputOf(Value())
    {
      hide IsReady, Swapped;
      StepKeeps(Value());
      from := (from + 1) % 256;
      to := (to + state[from]) % 256;
      Swap(from, to);
      byte := state[(state[from] + state[to]) % 256];
    }

    method Apply(data: seq<bv8>) returns (out: array<bv8>)
      requires Valid()
      modifies this, state
      ensures Valid() && fresh(out) && out[..] == Applied(old(Value()), data)
      ensures Value() == AfterBytes(old(Value()), |data|)
    {
      hide IsPermutation, Stepped, OutputOf;
      ghost var was := Value();
      out := new bv8[|data|];
      for at := 0 to |data|
        invariant Valid() && Value() == AfterBytes(was, at)
        invariant forall i | 0 <= i < at :: out[i] == Xor(data[i], Stream(was, at)[i])
      {
        var key := KeystreamByte();
        LastByte(was, at);
        out[at] := Xor(data[at], key);
      }
    }
  }

  // ---------- known answers ----------

  /** The key that leaves every byte of the state in its place. */
  function StillKey(): (key: seq<nat>)
    ensures |key| == 256
  {
    seq(256, i => if i == 0 then 0 else (257 - i) % 256)
  }

  lemma StillTurn(index: nat)
    requires index < 256
    ensures Sum(if index == 0 then 0 else index - 1, Identity()[index], StillKey()[index % |StillKey()|]) == index
    ensures Swapped(Identity(), index, index) == Identity()
  {
    assert index % 256 == index;
    assert Identity()[index] == index;
  }

  lemma {:induction false} StillFrom(index: nat)
    requires index <= 256
    ensures Mix(StillKey(), Identity(), if index == 0 then 0 else index - 1, index) == Identity()
    decreases 256 - index
  {
    hide Sum, Swapped, Mix, StillKey, Identity;
    var mixed := if index == 0 then 0 else index - 1;
    if index < 256 {
      IdentityLength();
      MixTurn(StillKey(), Identity(), mixed, index);
      StillTurn(index);
      StillFrom(index + 1);
    } else {
      IdentityLength();
      MixEnd(StillKey(), Identity(), mixed);
    }
  }

  lemma IdentityLength()
    ensures |Identity()| == 256
  {
  }

  /** One byte, from the three entries of the state it reads. */
  lemma StepReads(c: Running, from: nat, x: nat, to: nat, y: nat)
    requires from == (c.from + 1) % 256 && c.state[from] == x && to == (c.to + x) % 256 && c.state[to] == y
    ensures Stepped(c) == Cipher(c.state[from := y][to := x], from, to)
    ensures from != to ==> OutputOf(Stepped(c)) == c.state[from := y][to := x][(x + y) % 256]
    ensures from == to ==> OutputOf(Stepped(c)) == c.state[from := y][to := x][(x + x) % 256]
  {
  }

  const ONCE_MOVED := Identity()[2 := 3][3 := 2]

  lemma FirstStill()
    ensures Stepped(Cipher(Identity(), 0, 0)) == Cipher(Identity(), 1, 1) && OutputOf(Cipher(Identity(), 1, 1)) == 2
  {
    StepReads(Cipher(Identity(), 0, 0), 1, 1, 1, 1);
    assert Identity()[1 := 1][1 := 1] == Identity();
  }

  lemma SecondStill()
    ensures Stepped(Cipher(Identity(), 1, 1)) == Cipher(ONCE_MOVED, 2, 3) && OutputOf(Cipher(ONCE_MOVED, 2, 3)) == 5
  {
    StepReads(Cipher(Identity(), 1, 1), 2, 2, 3, 3);
  }

  lemma ThirdStill()
    ensures OutputOf(Stepped(Cipher(ONCE_MOVED, 2, 3))) == 7
  {
    StepReads(Cipher(ONCE_MOVED, 2, 3), 3, 2, 5, 5);
  }

  /** Its keystream begins 2, 5, 7, as counting by hand gives. */
  lemma StillKeystream()
    ensures KeyedState(StillKey()) == Identity()
    ensures Stream(Cipher(Identity(), 0, 0), 3) == [2, 5, 7]
  {
    StillFrom(0);
    hide Stepped, OutputOf, Identity, Stream, Mix;
    IdentityLength();
    FirstStill();
    SecondStill();
    ThirdStill();
    ThreeBytes(Cipher(Identity(), 0, 0));
  }

  lemma ThreeBytes(c: Running)
    ensures var (c1, c2) := (Stepped(c), Stepped(Stepped(c)));
            Stream(c, 3) == [OutputOf(c1), OutputOf(c2), OutputOf(Stepped(c2))]
  {
    hide Stepped, OutputOf;
    var c1, c2 := Stepped(c), Stepped(Stepped(c));
    assert Stream(c2, 1) == [OutputOf(Stepped(c2))];
    assert Stream(c1, 2) == [OutputOf(c2)] + Stream(c2, 1);
  }

  lemma Repeats(key: seq<nat>, index: nat)
    requires key != []
    ensures (key + key)[index % |key + key|] == key[index % |key|]
  {
    var n, m := |key|, |key + key|;
    var q, r := index / m, index % m;
    Divided(index, m);
    Doubled(q, n, m);
    Halved(index, n, 2 * q, r);
  }

  lemma Halved(index: nat, n: nat, p: nat, r: nat)
    requires r < n + n && index == p * n + r
    ensures index % n == if r < n then r else r - n
  {
    if r < n {
      RemainderOf(index, p, r, n);
    } else {
      OneMore(p, n);
      RemainderOf(index, p + 1, r - n, n);
    }
  }

  lemma Doubled(q: nat, n: nat, m: nat)
    requires m == n + n
    ensures q * m == (2 * q) * n
  {
    assert q * (n + n) == q * n + q * n;
  }

  lemma OneMore(p: nat, n: nat)
    ensures (p + 1) * n == p * n + n
  {
  }

  lemma Divided(index: nat, n: nat)
    requires n > 0
    ensures index == index / n * n + index % n && index % n < n
  {
  }

  lemma AtLeastOnce(k: nat, n: nat)
    requires k > 0
    ensures k * n >= n
  {
  }

  lemma RemainderOf(index: nat, q: nat, r: nat, n: nat)
    requires r < n && index == q * n + r
    ensures index % n == r
  {
    var p := index / n;
    Divided(index, n);
    assert (p - q) * n == p * n - q * n && (q - p) * n == q * n - p * n;
    if p > q {
      AtLeastOnce(p - q, n);
    }
    if p < q {
      AtLeastOnce(q - p, n);
    }
  }

  lemma {:induction false} MixRepeats(key: seq<nat>, state: seq<nat>, mixed: nat, index: nat)
    requires key != [] && |state| == 256 && index <= 256
    ensures Mix(key + key, state, mixed, index) == Mix(key, state, mixed, index)
    decreases 256 - index
  {
    if index < 256 {
      Repeats(key, index);
      MixTurn(key, state, mixed, index);
      MixTurn(key + key, state, mixed, index);
      var next := Sum(mixed, state[index], key[index % |key|]);
      MixRepeats(key, Swapped(state, index, next), next, index + 1);
    } else {
      MixEnd(key, state, mixed);
      MixEnd(key + key, state, mixed);
    }
  }

  /** Key setup goes round the key: written twice over, it is the same key. */
  lemma KeyRepeats(key: seq<nat>)
    requires key != []
    ensures KeyedState(key + key) == KeyedState(key)
  {
    MixRepeats(key, Identity(), 0, 0);
  }
}
