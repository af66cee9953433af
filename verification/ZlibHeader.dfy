/** The two header bytes of RFC 1950, section 2.2. */
module ZlibHeader {
  /** FLEVEL: which compressor was used, roughly. */
  function LevelFlags(level: nat, strategy: nat): nat {
    if strategy >= 2 || level < 2 then 0 else if level < 6 then 1 else if level == 6 then 2 else 3
  }

  function HeaderWord(wBits: nat, flags: nat): nat
    requires 8 <= wBits <= 15 && flags < 4
  {
    var header := (8 + (wBits - 8) * 16) * 256 + flags * 64;
    header + 31 - header % 31
  }

  /** Compression method 8, the window size, no preset dictionary, the level, and a multiple of 31. */
  lemma HeaderFields(wBits: nat, flags: nat)
    requires 8 <= wBits <= 15 && flags < 4
    ensures var w := HeaderWord(wBits, flags); var cmf, flg := w / 256, w % 256;
      && w < 0x1_0000 && w % 31 == 0
      && cmf % 16 == 8 && cmf / 16 + 8 == wBits
      && flg / 32 % 2 == 0 && flg / 64 == flags
  {
    var header := (8 + (wBits - 8) * 16) * 256 + flags * 64;
    assert header + 31 - header % 31 == 31 * (header / 31 + 1);
  }

  /** With the largest window, and at each level, these are the two bytes every zlib stream is known by. */
  lemma CommonHeaders(level: nat)
    ensures HeaderWord(15, LevelFlags(level, 0)) / 256 == 0x78
    ensures HeaderWord(15, LevelFlags(level, 0)) % 256
         == if level < 2 then 0x01 else if level < 6 then 0x5e else if level == 6 then 0x9c else 0xda
    ensures forall strategy :: 2 <= strategy ==> HeaderWord(15, LevelFlags(level, strategy)) == 0x7801
    ensures LevelFlags(level, 1) == LevelFlags(level, 0)
  {
    assert HeaderWord(15, 0) == 0x7801 && HeaderWord(15, 1) == 0x785e;
    assert HeaderWord(15, 2) == 0x789c && HeaderWord(15, 3) == 0x78da;
  }
}
