/** The opcodes of the tokenised program format by name, numbered as its enumeration does, and those the
    instruction parser lists as cases of its own. */
module Opcodes {

  const ADD: nat := 0
  const AND: nat := 1
  const BREAK: nat := 2
  const BREAKC: nat := 3
  const CALL: nat := 4
  const CALLC: nat := 5
  const CASE: nat := 6
  const CONTINUE: nat := 7
  const CONTINUEC: nat := 8
  const CUT: nat := 9
  const DEFAULT: nat := 10
  const DERIV_RTX: nat := 11
  const DERIV_RTY: nat := 12
  const DISCARD: nat := 13
  const DIV: nat := 14
  const DP2: nat := 15
  const DP3: nat := 16
  const DP4: nat := 17
  const ELSE: nat := 18
  const EMIT: nat := 19
  const EMITTHENCUT: nat := 20
  const ENDIF: nat := 21
  const ENDLOOP: nat := 22
  const ENDSWITCH: nat := 23
  const EQ: nat := 24
  const EXP: nat := 25
  const FRC: nat := 26
  const FTOI: nat := 27
  const FTOU: nat := 28
  const GE: nat := 29
  const IADD: nat := 30
  const IF: nat := 31
  const IEQ: nat := 32
  const IGE: nat := 33
  const ILT: nat := 34
  const IMAD: nat := 35
  const IMAX: nat := 36
  const IMIN: nat := 37
  const IMUL: nat := 38
  const INE: nat := 39
  const INEG: nat := 40
  const ISHL: nat := 41
  const ISHR: nat := 42
  const ITOF: nat := 43
  const LABEL: nat := 44
  const LD: nat := 45
  const LD_MS: nat := 46
  const LOG: nat := 47
  const LOOP: nat := 48
  const LT: nat := 49
  const MAD: nat := 50
  const MIN: nat := 51
  const MAX: nat := 52
  const CUSTOMDATA: nat := 53
  const MOV: nat := 54
  const MOVC: nat := 55
  const MUL: nat := 56
  const NE: nat := 57
  const NOP: nat := 58
  const NOT: nat := 59
  const OR: nat := 60
  const RESINFO: nat := 61
  const RET: nat := 62
  const RETC: nat := 63
  const ROUND_NE: nat := 64
  const ROUND_NI: nat := 65
  const ROUND_PI: nat := 66
  const ROUND_Z: nat := 67
  const RSQ: nat := 68
  const SAMPLE: nat := 69
  const SAMPLE_C: nat := 70
  const SAMPLE_C_LZ: nat := 71
  const SAMPLE_L: nat := 72
  const SAMPLE_D: nat := 73
  const SAMPLE_B: nat := 74
  const SQRT: nat := 75
  const SWITCH: nat := 76
  const SINCOS: nat := 77
  const UDIV: nat := 78
  const ULT: nat := 79
  const UGE: nat := 80
  const UMUL: nat := 81
  const UMAD: nat := 82
  const UMAX: nat := 83
  const UMIN: nat := 84
  const USHR: nat := 85
  const UTOF: nat := 86
  const XOR: nat := 87
  const DCL_RESOURCE: nat := 88
  const DCL_CONSTANT_BUFFER: nat := 89
  const DCL_SAMPLER: nat := 90
  const DCL_INDEX_RANGE: nat := 91
  const DCL_GS_OUTPUT_PRIMITIVE_TOPOLOGY: nat := 92
  const DCL_GS_INPUT_PRIMITIVE: nat := 93
  const DCL_MAX_OUTPUT_VERTEX_COUNT: nat := 94
  const DCL_INPUT: nat := 95
  const DCL_INPUT_SGV: nat := 96
  const DCL_INPUT_SIV: nat := 97
  const DCL_INPUT_PS: nat := 98
  const DCL_INPUT_PS_SGV: nat := 99
  const DCL_INPUT_PS_SIV: nat := 100
  const DCL_OUTPUT: nat := 101
  const DCL_OUTPUT_SGV: nat := 102
  const DCL_OUTPUT_SIV: nat := 103
  const DCL_TEMPS: nat := 104
  const DCL_INDEXABLE_TEMP: nat := 105
  const DCL_GLOBAL_FLAGS: nat := 106
  const RESERVED_10: nat := 107
  const LOD: nat := 108
  const GATHER4: nat := 109
  const SAMPLE_POS: nat := 110
  const SAMPLE_INFO: nat := 111
  const RESERVED_10_1: nat := 112
  const HS_DECLS: nat := 113
  const HS_CONTROL_POINT_PHASE: nat := 114
  const HS_FORK_PHASE: nat := 115
  const HS_JOIN_PHASE: nat := 116
  const EMIT_STREAM: nat := 117
  const CUT_STREAM: nat := 118
  const EMITTHENCUT_STREAM: nat := 119
  const INTERFACE_CALL: nat := 120
  const BUFINFO: nat := 121
  const DERIV_RTX_COARSE: nat := 122
  const DERIV_RTX_FINE: nat := 123
  const DERIV_RTY_COARSE: nat := 124
  const DERIV_RTY_FINE: nat := 125
  const GATHER4_C: nat := 126
  const GATHER4_PO: nat := 127
  const GATHER4_PO_C: nat := 128
  const RCP: nat := 129
  const F32TOF16: nat := 130
  const F16TOF32: nat := 131
  const UADDC: nat := 132
  const USUBB: nat := 133
  const COUNTBITS: nat := 134
  const FIRSTBIT_HI: nat := 135
  const FIRSTBIT_LO: nat := 136
  const FIRSTBIT_SHI: nat := 137
  const UBFE: nat := 138
  const IBFE: nat := 139
  const BFI: nat := 140
  const BFREV: nat := 141
  const SWAPC: nat := 142
  const DCL_STREAM: nat := 143
  const DCL_FUNCTION_BODY: nat := 144
  const DCL_FUNCTION_TABLE: nat := 145
  const DCL_INTERFACE: nat := 146
  const DCL_INPUT_CONTROL_POINT_COUNT: nat := 147
  const DCL_OUTPUT_CONTROL_POINT_COUNT: nat := 148
  const DCL_TESS_DOMAIN: nat := 149
  const DCL_TESS_PARTITIONING: nat := 150
  const DCL_TESS_OUTPUT_PRIMITIVE: nat := 151
  const DCL_HS_MAX_TESSFACTOR: nat := 152
  const DCL_HS_FORK_PHASE_INSTANCE_COUNT: nat := 153
  const DCL_HS_JOIN_PHASE_INSTANCE_COUNT: nat := 154
  const DCL_THREAD_GROUP: nat := 155
  const DCL_UNORDERED_ACCESS_VIEW_TYPED: nat := 156
  const DCL_UNORDERED_ACCESS_VIEW_RAW: nat := 157
  const DCL_UNORDERED_ACCESS_VIEW_STRUCTURED: nat := 158
  const DCL_THREAD_GROUP_SHARED_MEMORY_RAW: nat := 159
  const DCL_THREAD_GROUP_SHARED_MEMORY_STRUCTURED: nat := 160
  const DCL_RESOURCE_RAW: nat := 161
  const DCL_RESOURCE_STRUCTURED: nat := 162
  const LD_UAV_TYPED: nat := 163
  const STORE_UAV_TYPED: nat := 164
  const LD_RAW: nat := 165
  const STORE_RAW: nat := 166
  const LD_STRUCTURED: nat := 167
  const STORE_STRUCTURED: nat := 168
  const ATOMIC_AND: nat := 169
  const ATOMIC_OR: nat := 170
  const ATOMIC_XOR: nat := 171
  const ATOMIC_CMP_STORE: nat := 172
  const ATOMIC_IADD: nat := 173
  const ATOMIC_IMAX: nat := 174
  const ATOMIC_IMIN: nat := 175
  const ATOMIC_UMAX: nat := 176
  const ATOMIC_UMIN: nat := 177
  const IMM_ATOMIC_ALLOC: nat := 178
  const IMM_ATOMIC_CONSUME: nat := 179
  const IMM_ATOMIC_IADD: nat := 180
  const IMM_ATOMIC_AND: nat := 181
  const IMM_ATOMIC_OR: nat := 182
  const IMM_ATOMIC_XOR: nat := 183
  const IMM_ATOMIC_EXCH: nat := 184
  const IMM_ATOMIC_CMP_EXCH: nat := 185
  const IMM_ATOMIC_IMAX: nat := 186
  const IMM_ATOMIC_IMIN: nat := 187
  const IMM_ATOMIC_UMAX: nat := 188
  const IMM_ATOMIC_UMIN: nat := 189
  const SYNC: nat := 190
  const DADD: nat := 191
  const DMAX: nat := 192
  const DMIN: nat := 193
  const DMUL: nat := 194
  const DEQ: nat := 195
  const DGE: nat := 196
  const DLT: nat := 197
  const DNE: nat := 198
  const DMOV: nat := 199
  const DMOVC: nat := 200
  const DTOF: nat := 201
  const FTOD: nat := 202
  const EVAL_SNAPPED: nat := 203
  const EVAL_SAMPLE_INDEX: nat := 204
  const EVAL_CENTROID: nat := 205
  const DCL_GS_INSTANCE_COUNT: nat := 206
  const ABORT: nat := 207
  const DEBUG_BREAK: nat := 208
  const RESERVED_11: nat := 209
  const DDIV: nat := 210
  const DFMA: nat := 211
  const DRCP: nat := 212
  const MSAD: nat := 213
  const DTOI: nat := 214
  const DTOU: nat := 215
  const ITOD: nat := 216
  const UTOD: nat := 217
  const RESERVED_11_1: nat := 218
  const GATHER4_FEEDBACK: nat := 219
  const GATHER4_C_FEEDBACK: nat := 220
  const GATHER4_PO_FEEDBACK: nat := 221
  const GATHER4_PO_C_FEEDBACK: nat := 222
  const LD_FEEDBACK: nat := 223
  const LD_MS_FEEDBACK: nat := 224
  const LD_UAV_TYPED_FEEDBACK: nat := 225
  const LD_RAW_FEEDBACK: nat := 226
  const LD_STRUCTURED_FEEDBACK: nat := 227
  const SAMPLE_L_FEEDBACK: nat := 228
  const SAMPLE_C_LZ_FEEDBACK: nat := 229
  const SAMPLE_CLAMP_FEEDBACK: nat := 230
  const SAMPLE_B_CLAMP_FEEDBACK: nat := 231
  const SAMPLE_D_CLAMP_FEEDBACK: nat := 232
  const SAMPLE_C_CLAMP_FEEDBACK: nat := 233
  const CHECK_ACCESS_FULLY_MAPPED: nat := 234
  const RESERVED_WDDM_1_3: nat := 235

  /** Custom data, declarations, conditional control flow and calls, resource queries and sync. Every
      other opcode falls to the default case. */
  predicate Listed(n: nat) {
    || n == BREAKC || n == CALLC || n == CONTINUEC || n == DISCARD || n == IF || n == CUSTOMDATA || n == RESINFO
    || n == RETC || n == DCL_RESOURCE || n == DCL_CONSTANT_BUFFER || n == DCL_SAMPLER || n == DCL_INDEX_RANGE
    || n == DCL_GS_OUTPUT_PRIMITIVE_TOPOLOGY || n == DCL_GS_INPUT_PRIMITIVE || n == DCL_MAX_OUTPUT_VERTEX_COUNT
    || n == DCL_INPUT || n == DCL_INPUT_SGV || n == DCL_INPUT_SIV || n == DCL_INPUT_PS || n == DCL_INPUT_PS_SGV
    || n == DCL_INPUT_PS_SIV || n == DCL_OUTPUT || n == DCL_OUTPUT_SGV || n == DCL_OUTPUT_SIV || n == DCL_TEMPS
    || n == DCL_INDEXABLE_TEMP || n == DCL_GLOBAL_FLAGS || n == SAMPLE_INFO || n == INTERFACE_CALL
    || n == DCL_STREAM || n == DCL_FUNCTION_BODY || n == DCL_FUNCTION_TABLE || n == DCL_INTERFACE
    || n == DCL_INPUT_CONTROL_POINT_COUNT || n == DCL_OUTPUT_CONTROL_POINT_COUNT || n == DCL_TESS_DOMAIN
    || n == DCL_TESS_PARTITIONING || n == DCL_TESS_OUTPUT_PRIMITIVE || n == DCL_HS_MAX_TESSFACTOR
    || n == DCL_HS_FORK_PHASE_INSTANCE_COUNT || n == DCL_HS_JOIN_PHASE_INSTANCE_COUNT || n == DCL_THREAD_GROUP
    || n == DCL_UNORDERED_ACCESS_VIEW_TYPED || n == DCL_UNORDERED_ACCESS_VIEW_RAW
    || n == DCL_UNORDERED_ACCESS_VIEW_STRUCTURED || n == DCL_THREAD_GROUP_SHARED_MEMORY_RAW
    || n == DCL_THREAD_GROUP_SHARED_MEMORY_STRUCTURED || n == DCL_RESOURCE_RAW || n == DCL_RESOURCE_STRUCTURED
    || n == SYNC || n == DCL_GS_INSTANCE_COUNT
  }
}
