/** A small part of the Bitcoin script language: what the scripts that pay an address do when they are run. */
module Script {
  import opened Words

  /** The stack, with its top last, or a failed run. */
  datatype Outcome = Stack(items: seq<seq<byte>>) | Failed

  /** Hashing and signatures are given from outside: HASH160, and whether a signature fits a public key. */
  datatype Checks = Checks(hash160: seq<byte> -> seq<byte>, signed: (seq<byte>, seq<byte>) -> bool)

  const OP_0: byte := 0x00
  const OP_1: byte := 0x51
  const OP_16: byte := 0x60
  const OP_DUP: byte := 0x76
  const OP_EQUAL: byte := 0x87
  const OP_EQUALVERIFY: byte := 0x88
  const OP_HASH160: byte := 0xa9
  const OP_CHECKSIG: byte := 0xac

  /** Truth values on the stack. */
  function Flag(b: bool): seq<byte> {
    if b then [1] else []
  }

  /** One opcode that is no push; those that the scripts here do not use fail. */
  function Operate(op: byte, s: seq<seq<byte>>, c: Checks): Outcome {
    var n := |s|;
    if op == OP_DUP && n >= 1 then Stack(s + [s[n - 1]])
    else if op == OP_HASH160 && n >= 1 then Stack(s[..n - 1] + [c.hash160(s[n - 1])])
    else if op == OP_EQUAL && n >= 2 then Stack(s[..n - 2] + [Flag(s[n - 2] == s[n - 1])])
    else if op == OP_EQUALVERIFY && n >= 2 && s[n - 2] == s[n - 1] then Stack(s[..n - 2])
    else if op == OP_CHECKSIG && n >= 2 then Stack(s[..n - 2] + [Flag(c.signed(s[n - 2], s[n - 1]))])
    else Failed
  }

  /** Runs a script: opcodes 1 to 75 push so many bytes of the script, OP_0 pushes nothing, OP_1 to OP_16 push
      a number. */
  function Run(script: seq<byte>, s: seq<seq<byte>>, c: Checks): Outcome
    decreases |script|
  {
    if script == [] then Stack(s)
    else
      var op := script[0];
      if 1 <= op <= 75 then
        if |script| < 1 + op then Failed else Run(script[1 + op..], s + [script[1..1 + op]], c)
      else if op == OP_0 then Run(script[1..], s + [[]], c)
      else if OP_1 <= op <= OP_16 then Run(script[1..], s + [[op - OP_1 + 1]], c)
      else
        match Operate(op, s, c)
        case Failed => Failed
        case Stack(t) => Run(script[1..], t, c)
  }

  // ----- composing runs -----

  lemma RunOp(op: byte, rest: seq<byte>, s: seq<seq<byte>>, c: Checks)
    requires op > OP_16
    ensures Run([op] + rest, s, c) ==
            if Operate(op, s, c).Failed? then Failed else Run(rest, Operate(op, s, c).items, c)
  {
    hide Operate;
    assert ([op] + rest)[1..] == rest;
  }

  lemma RunPush(data: seq<byte>, rest: seq<byte>, s: seq<seq<byte>>, c: Checks)
    requires 1 <= |data| <= 75
    ensures Run([|data|] + data + rest, s, c) == Run(rest, s + [data], c)
  {
    var script := [|data|] + data + rest;
    assert script[1..1 + |data|] == data && script[1 + |data|..] == rest;
  }

  lemma RunNothing(s: seq<seq<byte>>, c: Checks)
    ensures Run([], s, c) == Stack(s)
  {
  }

  // ----- what pays to a hash -----

  /** Whoever knows a preimage `x` of the hash opens the script, and nobody else. */
  ghost predicate OpensByPreimage(script: seq<byte>, hash: seq<byte>) {
    forall c: Checks, x: seq<byte> :: Run(script, [x], c) == Stack([Flag(c.hash160(x) == hash)])
  }

  /** A key with the hash and a signature that fits it open the script, and nothing else. */
  ghost predicate OpensByKey(script: seq<byte>, hash: seq<byte>) {
    forall c: Checks, sig: seq<byte>, key: seq<byte> ::
      Run(script, [sig, key], c) ==
      if c.hash160(key) == hash then Stack([Flag(c.signed(sig, key))]) else Failed
  }

  /** The forms of the two scripts. */
  lemma PreimageScript(hash: seq<byte>)
    requires |hash| == 20
    ensures OpensByPreimage([0xa9, 0x14] + hash + [0x87], hash)
  {
    var script := [0xa9, 0x14] + hash + [0x87];
    forall c: Checks, x: seq<byte>
      ensures Run(script, [x], c) == Stack([Flag(c.hash160(x) == hash)])
    {
      hide Run;
      var y := c.hash160(x);
      assert script == [0xa9] + ([0x14] + hash + [0x87]);
      RunOp(0xa9, [0x14] + hash + [0x87], [x], c);
      assert Operate(0xa9, [x], c) == Stack([y]);
      RunPush(hash, [0x87], [y], c);
      assert [0x87] == [0x87] + [] && [y] + [hash] == [y, hash];
      RunOp(0x87, [], [y, hash], c);
      assert Operate(0x87, [y, hash], c) == Stack([Flag(y == hash)]);
      RunNothing([Flag(y == hash)], c);
    }
  }

  lemma KeyScript(hash: seq<byte>)
    requires |hash| == 20
    ensures OpensByKey([0x76, 0xa9, 0x14] + hash + [0x88, 0xac], hash)
  {
    var script := [0x76, 0xa9, 0x14] + hash + [0x88, 0xac];
    forall c: Checks, sig: seq<byte>, key: seq<byte>
      ensures Run(script, [sig, key], c) ==
              if c.hash160(key) == hash then Stack([Flag(c.signed(sig, key))]) else Failed
    {
      hide Run;
      var y, tail := c.hash160(key), [0x14] + hash + [0x88, 0xac];
      assert script == [0x76] + ([0xa9] + tail);
      RunOp(0x76, [0xa9] + tail, [sig, key], c);
      assert Operate(0x76, [sig, key], c) == Stack([sig, key, key]);
      RunOp(0xa9, tail, [sig, key, key], c);
      assert Operate(0xa9, [sig, key, key], c) == Stack([sig, key, y]);
      RunPush(hash, [0x88, 0xac], [sig, key, y], c);
      assert [0x88, 0xac] == [0x88] + [0xac] && [sig, key, y] + [hash] == [sig, key, y, hash];
      RunOp(0x88, [0xac], [sig, key, y, hash], c);
      if y == hash {
        assert Operate(0x88, [sig, key, y, hash], c) == Stack([sig, key]);
        assert [0xac] == [0xac] + [];
        RunOp(0xac, [], [sig, key], c);
        assert Operate(0xac, [sig, key], c) == Stack([Flag(c.signed(sig, key))]);
        RunNothing([Flag(c.signed(sig, key))], c);
      }
    }
  }

  // ----- witness programs -----

  datatype Witness = Program(version: byte, program: seq<byte>) | NotWitness

  /** How BIP 141 reads a script as a witness program: an opcode for a version from 0 to 16, and one push of 2 to
      40 bytes that ends the script. */
  function WitnessOf(script: seq<byte>): Witness {
    if 4 <= |script| <= 42 && (script[0] == OP_0 || OP_1 <= script[0] <= OP_16) && script[1] == |script| - 2
    then Program(if script[0] == OP_0 then 0 else script[0] - OP_1 + 1, script[2..])
    else NotWitness
  }
}
