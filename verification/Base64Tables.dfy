/**
 * The lookup tables of the codec, entry by entry: the encoding tables, and the decoding tables of the
 * little-endian and the big-endian build.  Runs of equal entries are grouped under one case.
 */
module Base64Tables {
  import opened Rfc4648

  /** The entry of a byte outside the alphabet. */
  const BAD_CHAR: nat := 0x01FFFFFF

  datatype ByteOrder = LittleEndian | BigEndian

  function LittleTable0(c: Byte): nat {
    match c
    case 43 => 0xf8 case 47 => 0xfc case 48 => 0xd0 case 49 => 0xd4 case 50 => 0xd8 case 51 => 0xdc
    case 52 => 0xe0 case 53 => 0xe4 case 54 => 0xe8 case 55 => 0xec case 56 => 0xf0 case 57 => 0xf4
    case 65 => 0x0 case 66 => 0x4 case 67 => 0x8 case 68 => 0xc case 69 => 0x10 case 70 => 0x14
    case 71 => 0x18 case 72 => 0x1c case 73 => 0x20 case 74 => 0x24 case 75 => 0x28 case 76 => 0x2c
    case 77 => 0x30 case 78 => 0x34 case 79 => 0x38 case 80 => 0x3c case 81 => 0x40 case 82 => 0x44
    case 83 => 0x48 case 84 => 0x4c case 85 => 0x50 case 86 => 0x54 case 87 => 0x58 case 88 => 0x5c
    case 89 => 0x60 case 90 => 0x64 case 97 => 0x68 case 98 => 0x6c case 99 => 0x70 case 100 => 0x74
    case 101 => 0x78 case 102 => 0x7c case 103 => 0x80 case 104 => 0x84 case 105 => 0x88 case 106 => 0x8c
    case 107 => 0x90 case 108 => 0x94 case 109 => 0x98 case 110 => 0x9c case 111 => 0xa0 case 112 => 0xa4
    case 113 => 0xa8 case 114 => 0xac case 115 => 0xb0 case 116 => 0xb4 case 117 => 0xb8 case 118 => 0xbc
    case 119 => 0xc0 case 120 => 0xc4 case 121 => 0xc8 case 122 => 0xcc
    case _ => BAD_CHAR
  }

  function LittleTable1(c: Byte): nat {
    match c
    case 43 => 0xe003 case 47 => 0xf003 case 48 => 0x4003 case 49 => 0x5003 case 50 => 0x6003
    case 51 => 0x7003 case 52 => 0x8003 case 53 => 0x9003 case 54 => 0xa003 case 55 => 0xb003
    case 56 => 0xc003 case 57 => 0xd003 case 65 => 0x0 case 66 => 0x1000 case 67 => 0x2000 case 68 => 0x3000
    case 69 => 0x4000 case 70 => 0x5000 case 71 => 0x6000 case 72 => 0x7000 case 73 => 0x8000
    case 74 => 0x9000 case 75 => 0xa000 case 76 => 0xb000 case 77 => 0xc000 case 78 => 0xd000
    case 79 => 0xe000 case 80 => 0xf000 case 81 => 0x1 case 82 => 0x1001 case 83 => 0x2001 case 84 => 0x3001
    case 85 => 0x4001 case 86 => 0x5001 case 87 => 0x6001 case 88 => 0x7001 case 89 => 0x8001
    case 90 => 0x9001 case 97 => 0xa001 case 98 => 0xb001 case 99 => 0xc001 case 100 => 0xd001
    case 101 => 0xe001 case 102 => 0xf001 case 103 => 0x2 case 104 => 0x1002 case 105 => 0x2002
    case 106 => 0x3002 case 107 => 0x4002 case 108 => 0x5002 case 109 => 0x6002 case 110 => 0x7002
    case 111 => 0x8002 case 112 => 0x9002 case 113 => 0xa002 case 114 => 0xb002 case 115 => 0xc002
    case 116 => 0xd002 case 117 => 0xe002 case 118 => 0xf002 case 119 => 0x3 case 120 => 0x1003
    case 121 => 0x2003 case 122 => 0x3003
    case _ => BAD_CHAR
  }

  function LittleTable2(c: Byte): nat {
    match c
    case 43 => 0x800f00 case 47 => 0xc00f00 case 48 => 0xd00 case 49 => 0x400d00 case 50 => 0x800d00
    case 51 => 0xc00d00 case 52 => 0xe00 case 53 => 0x400e00 case 54 => 0x800e00 case 55 => 0xc00e00
    case 56 => 0xf00 case 57 => 0x400f00 case 65 => 0x0 case 66 => 0x400000 case 67 => 0x800000
    case 68 => 0xc00000 case 69 => 0x100 case 70 => 0x400100 case 71 => 0x800100 case 72 => 0xc00100
    case 73 => 0x200 case 74 => 0x400200 case 75 => 0x800200 case 76 => 0xc00200 case 77 => 0x300
    case 78 => 0x400300 case 79 => 0x800300 case 80 => 0xc00300 case 81 => 0x400 case 82 => 0x400400
    case 83 => 0x800400 case 84 => 0xc00400 case 85 => 0x500 case 86 => 0x400500 case 87 => 0x800500
    case 88 => 0xc00500 case 89 => 0x600 case 90 => 0x400600 case 97 => 0x800600 case 98 => 0xc00600
    case 99 => 0x700 case 100 => 0x400700 case 101 => 0x800700 case 102 => 0xc00700 case 103 => 0x800
    case 104 => 0x400800 case 105 => 0x800800 case 106 => 0xc00800 case 107 => 0x900 case 108 => 0x400900
    case 109 => 0x800900 case 110 => 0xc00900 case 111 => 0xa00 case 112 => 0x400a00 case 113 => 0x800a00
    case 114 => 0xc00a00 case 115 => 0xb00 case 116 => 0x400b00 case 117 => 0x800b00 case 118 => 0xc00b00
    case 119 => 0xc00 case 120 => 0x400c00 case 121 => 0x800c00 case 122 => 0xc00c00
    case _ => BAD_CHAR
  }

  function LittleTable3(c: Byte): nat {
    match c
    case 43 => 0x3e0000 case 47 => 0x3f0000 case 48 => 0x340000 case 49 => 0x350000 case 50 => 0x360000
    case 51 => 0x370000 case 52 => 0x380000 case 53 => 0x390000 case 54 => 0x3a0000 case 55 => 0x3b0000
    case 56 => 0x3c0000 case 57 => 0x3d0000 case 65 => 0x0 case 66 => 0x10000 case 67 => 0x20000
    case 68 => 0x30000 case 69 => 0x40000 case 70 => 0x50000 case 71 => 0x60000 case 72 => 0x70000
    case 73 => 0x80000 case 74 => 0x90000 case 75 => 0xa0000 case 76 => 0xb0000 case 77 => 0xc0000
    case 78 => 0xd0000 case 79 => 0xe0000 case 80 => 0xf0000 case 81 => 0x100000 case 82 => 0x110000
    case 83 => 0x120000 case 84 => 0x130000 case 85 => 0x140000 case 86 => 0x150000 case 87 => 0x160000
    case 88 => 0x170000 case 89 => 0x180000 case 90 => 0x190000 case 97 => 0x1a0000 case 98 => 0x1b0000
    case 99 => 0x1c0000 case 100 => 0x1d0000 case 101 => 0x1e0000 case 102 => 0x1f0000 case 103 => 0x200000
    case 104 => 0x210000 case 105 => 0x220000 case 106 => 0x230000 case 107 => 0x240000 case 108 => 0x250000
    case 109 => 0x260000 case 110 => 0x270000 case 111 => 0x280000 case 112 => 0x290000 case 113 => 0x2a0000
    case 114 => 0x2b0000 case 115 => 0x2c0000 case 116 => 0x2d0000 case 117 => 0x2e0000 case 118 => 0x2f0000
    case 119 => 0x300000 case 120 => 0x310000 case 121 => 0x320000 case 122 => 0x330000
    case _ => BAD_CHAR
  }

  function BigTable0(c: Byte): nat {
    match c
    case 43 => 0xf80000 case 47 => 0xfc0000 case 48 => 0xd00000 case 49 => 0xd40000 case 50 => 0xd80000
    case 51 => 0xdc0000 case 52 => 0xe00000 case 53 => 0xe40000 case 54 => 0xe80000 case 55 => 0xec0000
    case 56 => 0xf00000 case 57 => 0xf40000 case 65 => 0x0 case 66 => 0x40000 case 67 => 0x80000
    case 68 => 0xc0000 case 69 => 0x100000 case 70 => 0x140000 case 71 => 0x180000 case 72 => 0x1c0000
    case 73 => 0x200000 case 74 => 0x240000 case 75 => 0x280000 case 76 => 0x2c0000 case 77 => 0x300000
    case 78 => 0x340000 case 79 => 0x380000 case 80 => 0x3c0000 case 81 => 0x400000 case 82 => 0x440000
    case 83 => 0x480000 case 84 => 0x4c0000 case 85 => 0x500000 case 86 => 0x540000 case 87 => 0x580000
    case 88 => 0x5c0000 case 89 => 0x600000 case 90 => 0x640000 case 97 => 0x680000 case 98 => 0x6c0000
    case 99 => 0x700000 case 100 => 0x740000 case 101 => 0x780000 case 102 => 0x7c0000 case 103 => 0x800000
    case 104 => 0x840000 case 105 => 0x880000 case 106 => 0x8c0000 case 107 => 0x900000 case 108 => 0x940000
    case 109 => 0x980000 case 110 => 0x9c0000 case 111 => 0xa00000 case 112 => 0xa40000 case 113 => 0xa80000
    case 114 => 0xac0000 case 115 => 0xb00000 case 116 => 0xb40000 case 117 => 0xb80000 case 118 => 0xbc0000
    case 119 => 0xc00000 case 120 => 0xc40000 case 121 => 0xc80000 case 122 => 0xcc0000
    case _ => BAD_CHAR
  }

  function BigTable1(c: Byte): nat {
    match c
    case 43 => 0x3e000 case 47 => 0x3f000 case 48 => 0x34000 case 49 => 0x35000 case 50 => 0x36000
    case 51 => 0x37000 case 52 => 0x38000 case 53 => 0x39000 case 54 => 0x3a000 case 55 => 0x3b000
    case 56 => 0x3c000 case 57 => 0x3d000 case 65 => 0x0 case 66 => 0x1000 case 67 => 0x2000 case 68 => 0x3000
    case 69 => 0x4000 case 70 => 0x5000 case 71 => 0x6000 case 72 => 0x7000 case 73 => 0x8000
    case 74 => 0x9000 case 75 => 0xa000 case 76 => 0xb000 case 77 => 0xc000 case 78 => 0xd000
    case 79 => 0xe000 case 80 => 0xf000 case 81 => 0x10000 case 82 => 0x11000 case 83 => 0x12000
    case 84 => 0x13000 case 85 => 0x14000 case 86 => 0x15000 case 87 => 0x16000 case 88 => 0x17000
    case 89 => 0x18000 case 90 => 0x19000 case 97 => 0x1a000 case 98 => 0x1b000 case 99 => 0x1c000
    case 100 => 0x1d000 case 101 => 0x1e000 case 102 => 0x1f000 case 103 => 0x20000 case 104 => 0x21000
    case 105 => 0x22000 case 106 => 0x23000 case 107 => 0x24000 case 108 => 0x25000 case 109 => 0x26000
    case 110 => 0x27000 case 111 => 0x28000 case 112 => 0x29000 case 113 => 0x2a000 case 114 => 0x2b000
    case 115 => 0x2c000 case 116 => 0x2d000 case 117 => 0x2e000 case 118 => 0x2f000 case 119 => 0x30000
    case 120 => 0x31000 case 121 => 0x32000 case 122 => 0x33000
    case _ => BAD_CHAR
  }

  function BigTable2(c: Byte): nat {
    match c
    case 43 => 0xf80 case 47 => 0xfc0 case 48 => 0xd00 case 49 => 0xd40 case 50 => 0xd80 case 51 => 0xdc0
    case 52 => 0xe00 case 53 => 0xe40 case 54 => 0xe80 case 55 => 0xec0 case 56 => 0xf00 case 57 => 0xf40
    case 65 => 0x0 case 66 => 0x40 case 67 => 0x80 case 68 => 0xc0 case 69 => 0x100 case 70 => 0x140
    case 71 => 0x180 case 72 => 0x1c0 case 73 => 0x200 case 74 => 0x240 case 75 => 0x280 case 76 => 0x2c0
    case 77 => 0x300 case 78 => 0x340 case 79 => 0x380 case 80 => 0x3c0 case 81 => 0x400 case 82 => 0x440
    case 83 => 0x480 case 84 => 0x4c0 case 85 => 0x500 case 86 => 0x540 case 87 => 0x580 case 88 => 0x5c0
    case 89 => 0x600 case 90 => 0x640 case 97 => 0x680 case 98 => 0x6c0 case 99 => 0x700 case 100 => 0x740
    case 101 => 0x780 case 102 => 0x7c0 case 103 => 0x800 case 104 => 0x840 case 105 => 0x880
    case 106 => 0x8c0 case 107 => 0x900 case 108 => 0x940 case 109 => 0x980 case 110 => 0x9c0
    case 111 => 0xa00 case 112 => 0xa40 case 113 => 0xa80 case 114 => 0xac0 case 115 => 0xb00
    case 116 => 0xb40 case 117 => 0xb80 case 118 => 0xbc0 case 119 => 0xc00 case 120 => 0xc40
    case 121 => 0xc80 case 122 => 0xcc0
    case _ => BAD_CHAR
  }

  function BigTable3(c: Byte): nat {
    match c
    case 43 => 0x3e case 47 => 0x3f case 48 => 0x34 case 49 => 0x35 case 50 => 0x36 case 51 => 0x37
    case 52 => 0x38 case 53 => 0x39 case 54 => 0x3a case 55 => 0x3b case 56 => 0x3c case 57 => 0x3d
    case 65 => 0x0 case 66 => 0x1 case 67 => 0x2 case 68 => 0x3 case 69 => 0x4 case 70 => 0x5 case 71 => 0x6
    case 72 => 0x7 case 73 => 0x8 case 74 => 0x9 case 75 => 0xa case 76 => 0xb case 77 => 0xc case 78 => 0xd
    case 79 => 0xe case 80 => 0xf case 81 => 0x10 case 82 => 0x11 case 83 => 0x12 case 84 => 0x13
    case 85 => 0x14 case 86 => 0x15 case 87 => 0x16 case 88 => 0x17 case 89 => 0x18 case 90 => 0x19
    case 97 => 0x1a case 98 => 0x1b case 99 => 0x1c case 100 => 0x1d case 101 => 0x1e case 102 => 0x1f
    case 103 => 0x20 case 104 => 0x21 case 105 => 0x22 case 106 => 0x23 case 107 => 0x24 case 108 => 0x25
    case 109 => 0x26 case 110 => 0x27 case 111 => 0x28 case 112 => 0x29 case 113 => 0x2a case 114 => 0x2b
    case 115 => 0x2c case 116 => 0x2d case 117 => 0x2e case 118 => 0x2f case 119 => 0x30 case 120 => 0x31
    case 121 => 0x32 case 122 => 0x33
    case _ => BAD_CHAR
  }

  function EncodeTable0(c: Byte): Byte {
    if c < 64 then EncodeTable0First(c)
    else if c < 128 then EncodeTable0Second(c)
    else if c < 192 then EncodeTable0Third(c)
    else EncodeTable0Fourth(c)
  }

  function EncodeTable0First(c: Byte): Byte {
    match c
    case 0 | 1 | 2 | 3 => 65 case 4 | 5 | 6 | 7 => 66 case 8 | 9 | 10 | 11 => 67 case 12 | 13 | 14 | 15 => 68
    case 16 | 17 | 18 | 19 => 69 case 20 | 21 | 22 | 23 => 70 case 24 | 25 | 26 | 27 => 71
    case 28 | 29 | 30 | 31 => 72 case 32 | 33 | 34 | 35 => 73 case 36 | 37 | 38 | 39 => 74
    case 40 | 41 | 42 | 43 => 75 case 44 | 45 | 46 | 47 => 76 case 48 | 49 | 50 | 51 => 77
    case 52 | 53 | 54 | 55 => 78 case 56 | 57 | 58 | 59 => 79 case _ => 80
  }

  function EncodeTable0Second(c: Byte): Byte {
    match c
    case 64 | 65 | 66 | 67 => 81 case 68 | 69 | 70 | 71 => 82 case 72 | 73 | 74 | 75 => 83
    case 76 | 77 | 78 | 79 => 84 case 80 | 81 | 82 | 83 => 85 case 84 | 85 | 86 | 87 => 86
    case 88 | 89 | 90 | 91 => 87 case 92 | 93 | 94 | 95 => 88 case 96 | 97 | 98 | 99 => 89
    case 100 | 101 | 102 | 103 => 90 case 104 | 105 | 106 | 107 => 97 case 108 | 109 | 110 | 111 => 98
    case 112 | 113 | 114 | 115 => 99 case 116 | 117 | 118 | 119 => 100 case 120 | 121 | 122 | 123 => 101
    case _ => 102
  }

  function EncodeTable0Third(c: Byte): Byte {
    match c
    case 128 | 129 | 130 | 131 => 103 case 132 | 133 | 134 | 135 => 104 case 136 | 137 | 138 | 139 => 105
    case 140 | 141 | 142 | 143 => 106 case 144 | 145 | 146 | 147 => 107 case 148 | 149 | 150 | 151 => 108
    case 152 | 153 | 154 | 155 => 109 case 156 | 157 | 158 | 159 => 110 case 160 | 161 | 162 | 163 => 111
    case 164 | 165 | 166 | 167 => 112 case 168 | 169 | 170 | 171 => 113 case 172 | 173 | 174 | 175 => 114
    case 176 | 177 | 178 | 179 => 115 case 180 | 181 | 182 | 183 => 116 case 184 | 185 | 186 | 187 => 117
    case _ => 118
  }

  function EncodeTable0Fourth(c: Byte): Byte {
    match c
    case 192 | 193 | 194 | 195 => 119 case 196 | 197 | 198 | 199 => 120 case 200 | 201 | 202 | 203 => 121
    case 204 | 205 | 206 | 207 => 122 case 208 | 209 | 210 | 211 => 48 case 212 | 213 | 214 | 215 => 49
    case 216 | 217 | 218 | 219 => 50 case 220 | 221 | 222 | 223 => 51 case 224 | 225 | 226 | 227 => 52
    case 228 | 229 | 230 | 231 => 53 case 232 | 233 | 234 | 235 => 54 case 236 | 237 | 238 | 239 => 55
    case 240 | 241 | 242 | 243 => 56 case 244 | 245 | 246 | 247 => 57 case 248 | 249 | 250 | 251 => 43
    case _ => 47
  }

  function EncodeTable1(c: Byte): Byte {
    if c < 64 then EncodeTable1First(c)
    else if c < 128 then EncodeTable1Second(c)
    else if c < 192 then EncodeTable1Third(c)
    else EncodeTable1Fourth(c)
  }

  function EncodeTable1First(c: Byte): Byte {
    match c
    case 0 => 65 case 1 => 66 case 2 => 67 case 3 => 68 case 4 => 69 case 5 => 70 case 6 => 71 case 7 => 72
    case 8 => 73 case 9 => 74 case 10 => 75 case 11 => 76 case 12 => 77 case 13 => 78 case 14 => 79
    case 15 => 80 case 16 => 81 case 17 => 82 case 18 => 83 case 19 => 84 case 20 => 85 case 21 => 86
    case 22 => 87 case 23 => 88 case 24 => 89 case 25 => 90 case 26 => 97 case 27 => 98 case 28 => 99
    case 29 => 100 case 30 => 101 case 31 => 102 case 32 => 103 case 33 => 104 case 34 => 105 case 35 => 106
    case 36 => 107 case 37 => 108 case 38 => 109 case 39 => 110 case 40 => 111 case 41 => 112 case 42 => 113
    case 43 => 114 case 44 => 115 case 45 => 116 case 46 => 117 case 47 => 118 case 48 => 119 case 49 => 120
    case 50 => 121 case 51 => 122 case 52 => 48 case 53 => 49 case 54 => 50 case 55 => 51 case 56 => 52
    case 57 => 53 case 58 => 54 case 59 => 55 case 60 => 56 case 61 => 57 case 62 => 43 case _ => 47
  }

  function EncodeTable1Second(c: Byte): Byte {
    match c
    case 64 => 65 case 65 => 66 case 66 => 67 case 67 => 68 case 68 => 69 case 69 => 70 case 70 => 71
    case 71 => 72 case 72 => 73 case 73 => 74 case 74 => 75 case 75 => 76 case 76 => 77 case 77 => 78
    case 78 => 79 case 79 => 80 case 80 => 81 case 81 => 82 case 82 => 83 case 83 => 84 case 84 => 85
    case 85 => 86 case 86 => 87 case 87 => 88 case 88 => 89 case 89 => 90 case 90 => 97 case 91 => 98
    case 92 => 99 case 93 => 100 case 94 => 101 case 95 => 102 case 96 => 103 case 97 => 104 case 98 => 105
    case 99 => 106 case 100 => 107 case 101 => 108 case 102 => 109 case 103 => 110 case 104 => 111
    case 105 => 112 case 106 => 113 case 107 => 114 case 108 => 115 case 109 => 116 case 110 => 117
    case 111 => 118 case 112 => 119 case 113 => 120 case 114 => 121 case 115 => 122 case 116 => 48
    case 117 => 49 case 118 => 50 case 119 => 51 case 120 => 52 case 121 => 53 case 122 => 54 case 123 => 55
    case 124 => 56 case 125 => 57 case 126 => 43 case _ => 47
  }

  function EncodeTable1Third(c: Byte): Byte {
    match c
    case 128 => 65 case 129 => 66 case 130 => 67 case 131 => 68 case 132 => 69 case 133 => 70 case 134 => 71
    case 135 => 72 case 136 => 73 case 137 => 74 case 138 => 75 case 139 => 76 case 140 => 77 case 141 => 78
    case 142 => 79 case 143 => 80 case 144 => 81 case 145 => 82 case 146 => 83 case 147 => 84 case 148 => 85
    case 149 => 86 case 150 => 87 case 151 => 88 case 152 => 89 case 153 => 90 case 154 => 97 case 155 => 98
    case 156 => 99 case 157 => 100 case 158 => 101 case 159 => 102 case 160 => 103 case 161 => 104
    case 162 => 105 case 163 => 106 case 164 => 107 case 165 => 108 case 166 => 109 case 167 => 110
    case 168 => 111 case 169 => 112 case 170 => 113 case 171 => 114 case 172 => 115 case 173 => 116
    case 174 => 117 case 175 => 118 case 176 => 119 case 177 => 120 case 178 => 121 case 179 => 122
    case 180 => 48 case 181 => 49 case 182 => 50 case 183 => 51 case 184 => 52 case 185 => 53 case 186 => 54
    case 187 => 55 case 188 => 56 case 189 => 57 case 190 => 43 case _ => 47
  }

  function EncodeTable1Fourth(c: Byte): Byte {
    match c
    case 192 => 65 case 193 => 66 case 194 => 67 case 195 => 68 case 196 => 69 case 197 => 70 case 198 => 71
    case 199 => 72 case 200 => 73 case 201 => 74 case 202 => 75 case 203 => 76 case 204 => 77 case 205 => 78
    case 206 => 79 case 207 => 80 case 208 => 81 case 209 => 82 case 210 => 83 case 211 => 84 case 212 => 85
    case 213 => 86 case 214 => 87 case 215 => 88 case 216 => 89 case 217 => 90 case 218 => 97 case 219 => 98
    case 220 => 99 case 221 => 100 case 222 => 101 case 223 => 102 case 224 => 103 case 225 => 104
    case 226 => 105 case 227 => 106 case 228 => 107 case 229 => 108 case 230 => 109 case 231 => 110
    case 232 => 111 case 233 => 112 case 234 => 113 case 235 => 114 case 236 => 115 case 237 => 116
    case 238 => 117 case 239 => 118 case 240 => 119 case 241 => 120 case 242 => 121 case 243 => 122
    case 244 => 48 case 245 => 49 case 246 => 50 case 247 => 51 case 248 => 52 case 249 => 53 case 250 => 54
    case 251 => 55 case 252 => 56 case 253 => 57 case 254 => 43 case _ => 47
  }

  function DecodeTable(order: ByteOrder, k: nat, c: Byte): nat
    requires k < 4
  {
    match order
    case LittleEndian =>
      (match k case 0 => LittleTable0(c) case 1 => LittleTable1(c) case 2 => LittleTable2(c) case _ => LittleTable3(c))
    case BigEndian =>
      (match k case 0 => BigTable0(c) case 1 => BigTable1(c) case 2 => BigTable2(c) case _ => BigTable3(c))
  }

  /** Where the k-th sextet of a quantum lands in the 32-bit word. */
  function Spread(order: ByteOrder, k: nat, v: nat): nat
    requires k < 4
  {
    match order
    case LittleEndian =>
      (match k
       case 0 => v * 4
       case 1 => v / 16 + (v % 16) * 16 * 256
       case 2 => (v / 4) * 256 + (v % 4) * 64 * 256 * 256
       case _ => v * 256 * 256)
    case BigEndian =>
      (match k
       case 0 => v * 64 * 64 * 64
       case 1 => v * 64 * 64
       case 2 => v * 64
       case _ => v)
  }

  /** What every decoding table holds. */
  function Entry(order: ByteOrder, k: nat, c: Byte): nat
    requires k < 4
  {
    if InAlphabet(c) then Spread(order, k, ValueOf(c)) else BAD_CHAR
  }

  lemma LittleTable1Upper(c: Byte)
    requires 65 <= c <= 90
    ensures LittleTable1(c) == Spread(LittleEndian, 1, c - 65)
  {}

  lemma LittleTable1Lower(c: Byte)
    requires 97 <= c <= 122
    ensures LittleTable1(c) == Spread(LittleEndian, 1, c - 71)
  {}

  lemma LittleTable2Upper(c: Byte)
    requires 65 <= c <= 90
    ensures LittleTable2(c) == Spread(LittleEndian, 2, c - 65)
  {}

  lemma LittleTable2Lower(c: Byte)
    requires 97 <= c <= 122
    ensures LittleTable2(c) == Spread(LittleEndian, 2, c - 71)
  {}

  lemma LittleTable0Entries(c: Byte)
    ensures LittleTable0(c) == Entry(LittleEndian, 0, c)
  {}

  lemma LittleTable1Entries(c: Byte)
    ensures LittleTable1(c) == Entry(LittleEndian, 1, c)
  {
    if 65 <= c <= 90 {
      LittleTable1Upper(c);
    } else if 97 <= c <= 122 {
      LittleTable1Lower(c);
    }
  }

  lemma LittleTable2Entries(c: Byte)
    ensures LittleTable2(c) == Entry(LittleEndian, 2, c)
  {
    if 65 <= c <= 90 {
      LittleTable2Upper(c);
    } else if 97 <= c <= 122 {
      LittleTable2Lower(c);
    }
  }

  lemma LittleTable3Entries(c: Byte)
    ensures LittleTable3(c) == Entry(LittleEndian, 3, c)
  {}

  lemma BigTable0Entries(c: Byte)
    ensures BigTable0(c) == Entry(BigEndian, 0, c)
  {}

  lemma BigTable1Entries(c: Byte)
    ensures BigTable1(c) == Entry(BigEndian, 1, c)
  {}

  lemma BigTable2Entries(c: Byte)
    ensures BigTable2(c) == Entry(BigEndian, 2, c)
  {}

  lemma BigTable3Entries(c: Byte)
    ensures BigTable3(c) == Entry(BigEndian, 3, c)
  {}

  /** The eight decoding tables are the shifts of the sextet value, and the bad entry elsewhere. */
  lemma DecodeTables(order: ByteOrder, k: nat, c: Byte)
    requires k < 4
    ensures DecodeTable(order, k, c) == Entry(order, k, c)
  {
    LittleTable0Entries(c);
    LittleTable1Entries(c);
    LittleTable2Entries(c);
    LittleTable3Entries(c);
    BigTable0Entries(c);
    BigTable1Entries(c);
    BigTable2Entries(c);
    BigTable3Entries(c);
  }

  lemma EncodeTable0Entries(c: Byte)
    ensures EncodeTable0(c) == CharOf(c / 4)
  {
    if c < 64 {
      HighFirst(c);
    } else if c < 128 {
      HighSecond(c);
    } else if c < 192 {
      HighThird(c);
    } else {
      HighFourth(c);
    }
  }

  lemma HighFirst(c: Byte)
    requires c < 64
    ensures EncodeTable0First(c) == CharOf(c / 4)
  {}

  lemma HighSecond(c: Byte)
    requires 64 <= c < 128
    ensures EncodeTable0Second(c) == CharOf(c / 4)
  {}

  lemma HighThird(c: Byte)
    requires 128 <= c < 192
    ensures EncodeTable0Third(c) == CharOf(c / 4)
  {}

  lemma HighFourth(c: Byte)
    requires 192 <= c
    ensures EncodeTable0Fourth(c) == CharOf(c / 4)
  {}

  lemma EncodeTable1Entries(c: Byte)
    ensures EncodeTable1(c) == CharOf(c % 64)
  {
    LowSixBits(c);
    if c < 64 {
      FirstQuarter(c);
    } else if c < 128 {
      SecondQuarter(c - 64);
    } else if c < 192 {
      ThirdQuarter(c - 128);
    } else {
      FourthQuarter(c - 192);
    }
  }

  lemma LowSixBits(c: Byte)
    ensures c % 64 == if c < 64 then c else if c < 128 then c - 64 else if c < 192 then c - 128 else c - 192
  {}

  lemma FirstQuarter(v: Byte)
    requires v < 64
    ensures EncodeTable1First(v) == CharOf(v)
  {}

  lemma SecondQuarter(v: Byte)
    requires v < 64
    ensures EncodeTable1Second(v + 64) == CharOf(v)
  {}

  lemma ThirdQuarter(v: Byte)
    requires v < 64
    ensures EncodeTable1Third(v + 128) == CharOf(v)
  {}

  lemma FourthQuarter(v: Byte)
    requires v < 64
    ensures EncodeTable1Fourth(v + 192) == CharOf(v)
  {}
}
